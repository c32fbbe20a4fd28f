/** The 48-bit linear congruential generator: its states form one cycle, and its outputs have no shorter period. */
module Rand {
  import opened Bits
  import opened Bytes

  const MULTIPLIER: u64 := 0x5_DEEC_E66D
  const INCREMENT: u64 := 0xB
  const MODULUS: u64 := 0x1_0000_0000_0000
  const RAND_MAX := 0x7FFF_FFFF

  // ----- iterating x -> a x + c ---------------------------------------------------------------------------------

  function Iterate(a: nat, c: nat, x: nat, n: nat): nat {
    if n == 0 then x else a * Iterate(a, c, x, n - 1) + c
  }

  /** 1 + a + ... + a^(n-1). */
  function Series(a: nat, n: nat): nat {
    if n == 0 then 0 else a * Series(a, n - 1) + 1
  }

  lemma Distribute(x: int, y: int, z: int)
    ensures x * (y + z) == x * y + x * z
  {
  }

  lemma Associate(x: int, y: int, z: int)
    ensures x * (y * z) == (x * y) * z
  {
  }

  lemma {:induction false} IterateIs(a: nat, c: nat, x: nat, n: nat)
    requires a >= 1
    ensures Iterate(a, c, x, n) == x + Series(a, n) * ((a - 1) * x + c)
  {
    if n > 0 {
      IterateIs(a, c, x, n - 1);
      IterateStep(a, c, x, Series(a, n - 1), (a - 1) * x + c);
    }
  }

  lemma IterateStep(a: int, c: int, x: int, s: int, k: int)
    requires k == (a - 1) * x + c
    ensures a * (x + s * k) + c == x + (a * s + 1) * k
  {
    Distribute(a, x, s * k);
    Associate(a, s, k);
    Distribute(k, a * s, 1);
    Distribute(x, a - 1, 1);
  }

  lemma {:induction false} IterateMore(a: nat, c: nat, x: nat, m: nat, n: nat)
    ensures Iterate(a, c, x, m + n) == Iterate(a, c, Iterate(a, c, x, m), n)
  {
    if n > 0 { IterateMore(a, c, x, m, n - 1); }
  }

  /** Series(m + n) = Series(m) + a^m Series(n), with a^m written as 1 + (a - 1) Series(m). */
  lemma {:induction false} SeriesSum(a: nat, m: nat, n: nat)
    requires a >= 1
    ensures Series(a, m + n) == Series(a, m) + Series(a, n) * (1 + (a - 1) * Series(a, m))
  {
    if n > 0 {
      SeriesSum(a, m, n - 1);
      IterateStep(a, 1, Series(a, m), Series(a, n - 1), 1 + (a - 1) * Series(a, m));
    }
  }

  // ----- powers of two that divide ------------------------------------------------------------------------------

  /** 2^m divides x. */
  predicate Divides(m: nat, x: nat) {
    m == 0 || (x % 2 == 0 && Divides(m - 1, x / 2))
  }

  lemma {:induction false} DividesIff(m: nat, x: nat)
    ensures Divides(m, x) <==> x % Pow2(m) == 0
  {
    if m > 0 {
      DividesIff(m - 1, x / 2);
      ModDouble(x / 2, Pow2(m - 1));
      if x % 2 == 1 { ModDoubleOdd(x / 2, Pow2(m - 1)); }
    }
  }

  lemma ModUnique(x: int, p: int, q: int, r: int)
    requires x == p * q + r && 0 <= r < p
    ensures x % p == r && x / p == q
  {
    var d := q - x / p;
    Distribute(p, x / p, d);
    if d > 0 { AtLeast(p, d); } else if d < 0 { AtLeast(p, -d); }
  }

  lemma AtLeast(p: int, d: int)
    requires p >= 0 && d >= 1
    ensures p * d >= p
  {
  }

  lemma ModDouble(x: nat, p: nat)
    requires p >= 1
    ensures 2 * x % (2 * p) == 2 * (x % p)
  {
    Associate(2, p, x / p);
    ModUnique(2 * x, 2 * p, x / p, 2 * (x % p));
  }

  lemma ModDoubleOdd(x: nat, p: nat)
    requires p >= 1
    ensures (2 * x + 1) % (2 * p) == 2 * (x % p) + 1
  {
    Associate(2, p, x / p);
    ModUnique(2 * x + 1, 2 * p, x / p, 2 * (x % p) + 1);
  }

  lemma DividesTwice(m: nat, y: nat)
    ensures Divides(m, 2 * y) <==> m == 0 || Divides(m - 1, y)
  {
  }

  lemma TimesOdd(x: nat, k: nat)
    ensures x * (2 * k + 1) == 2 * (x * k) + x
    ensures x % 2 == 0 ==> x * (2 * k + 1) == 2 * (x / 2 * (2 * k + 1))
  {
    Distribute(x, 2 * k, 1);
    Associate(x, 2, k);
    Associate(2, x / 2, 2 * k + 1);
  }

  lemma OddParity(v: nat, x: nat)
    ensures (2 * v + x) % 2 == x % 2
  {
  }

  /** An odd factor makes no difference. */
  lemma {:induction false} OddFactor(m: nat, x: nat, k: nat)
    ensures Divides(m, x * (2 * k + 1)) <==> Divides(m, x)
  {
    if m > 0 {
      TimesOdd(x, k);
      OddParity(x * k, x);
      if x % 2 == 0 {
        OddFactor(m - 1, x / 2, k);
        DividesTwice(m, x / 2 * (2 * k + 1));
      }
    }
  }

  lemma OddStep(h: nat, s: nat, next: nat)
    requires next == (2 * h + 1) * s + 1
    ensures next % 2 == (s + 1) % 2
  {
    Distribute(s, 2 * h, 1);
    Associate(2, h, s);
    var v := h * s;
    assert next == 2 * v + (s + 1);
    OddParity(v, s + 1);
  }

  lemma {:induction false} SeriesParity(h: nat, n: nat)
    ensures Series(2 * h + 1, n) % 2 == n % 2
  {
    hide Series;
    SeriesNext(2 * h + 1, n);
    if n > 0 {
      SeriesParity(h, n - 1);
      OddStep(h, Series(2 * h + 1, n - 1), Series(2 * h + 1, n));
      NextParity(Series(2 * h + 1, n - 1), n - 1);
    }
  }

  lemma SeriesNext(a: nat, n: nat)
    ensures Series(a, n) == if n == 0 then 0 else a * Series(a, n - 1) + 1
  {
  }

  lemma NextParity(x: nat, y: nat)
    requires x % 2 == y % 2
    ensures (x + 1) % 2 == (y + 1) % 2
  {
  }

  lemma SeriesTwice(h: nat, s: nat)
    ensures s + s * (1 + (4 * h + 1 - 1) * s) == 2 * (s * (2 * (h * s) + 1))
  {
    Associate(4, h, s);
    Distribute(s, 1, 4 * (h * s));
    Distribute(s, 2 * (h * s), 1);
    Associate(s, 4, h * s);
    Associate(s, 2, h * s);
  }

  lemma SeriesHalf(h: nat, n: nat)
    requires n % 2 == 0
    ensures var s := Series(4 * h + 1, n / 2); Series(4 * h + 1, n) == 2 * (s * (2 * (h * s) + 1))
  {
    hide Series;
    SeriesSum(4 * h + 1, n / 2, n / 2);
    SeriesTwice(h, Series(4 * h + 1, n / 2));
  }

  /** With a = 4 h + 1, the sum of n powers has exactly the factors of two that n has. */
  lemma {:induction false} SeriesDivides(h: nat, n: nat, m: nat)
    ensures Divides(m, Series(4 * h + 1, n)) <==> Divides(m, n)
    decreases n
  {
    if m > 0 && n > 0 {
      SeriesParity(2 * h, n);
      if n % 2 == 0 {
        hide Series;
        var s := Series(4 * h + 1, n / 2);
        SeriesHalf(h, n);
        SeriesDivides(h, n / 2, m - 1);
        OddFactor(m - 1, s, h * s);
        DividesTwice(m, s * (2 * (h * s) + 1));
      }
    } else if n == 0 {
      assert Series(4 * h + 1, n) == 0;
    }
  }

  // ----- one cycle for every modulus 2^m ------------------------------------------------------------------------

  /** a = 1 modulo 4, and c odd: Hull and Dobell's condition for a power of two. */
  predicate FullPeriod(a: nat, c: nat) {
    a % 4 == 1 && c % 2 == 1
  }

  lemma SameRest(x: nat, y: nat, p: nat)
    requires p >= 1
    ensures (x + y) % p == x % p <==> y % p == 0
  {
    var r := x % p + y % p;
    Distribute(p, x / p, y / p);
    if r < p {
      ModUnique(x + y, p, x / p + y / p, r);
    } else {
      Distribute(p, x / p + y / p, 1);
      ModUnique(x + y, p, x / p + y / p + 1, r - p);
    }
  }

  function OddHalf(a: nat, c: nat, x: nat): nat {
    2 * (a / 4 * x) + c / 2
  }

  lemma IterateOdd(a: nat, c: nat, x: nat, n: nat)
    requires FullPeriod(a, c)
    ensures Iterate(a, c, x, n) == x + Series(a, n) * (2 * OddHalf(a, c, x) + 1)
  {
    IterateIs(a, c, x, n);
    Associate(4, a / 4, x);
    assert (a - 1) * x + c == 2 * OddHalf(a, c, x) + 1;
  }

  /** Modulo 2^m, n steps lead back to where they started just when 2^m divides n, wherever that is. */
  lemma ReturnsIff(a: nat, c: nat, x: nat, n: nat, m: nat)
    requires FullPeriod(a, c)
    ensures Iterate(a, c, x, n) % Pow2(m) == x % Pow2(m) <==> n % Pow2(m) == 0
  {
    var s, k := Series(a, n), OddHalf(a, c, x);
    IterateOdd(a, c, x, n);
    OddFactor(m, s, k);
    SeriesDivides(a / 4, n, m);
    DividesIff(m, n);
    hide *;
    DividesIff(m, s * (2 * k + 1));
    SameRest(x, s * (2 * k + 1), Pow2(m));
  }

  /** 2^m steps add 2^m modulo 2^(m+1). */
  lemma HalfCycle(a: nat, c: nat, x: nat, m: nat)
    requires FullPeriod(a, c)
    ensures Iterate(a, c, x, Pow2(m)) % Pow2(m + 1) == (x + Pow2(m)) % Pow2(m + 1)
  {
    var p, y := Pow2(m), Iterate(a, c, x, Pow2(m));
    ReturnsIff(a, c, x, p, m);
    ReturnsIff(a, c, x, p, m + 1);
    ModUnique(p, p, 1, 0);
    ModUnique(p, 2 * p, 0, p);
    OtherHalf(y, x, p);
  }

  /** Numbers that agree modulo p but not modulo 2 p differ by p modulo 2 p. */
  lemma OtherHalf(y: nat, x: nat, p: nat)
    requires p >= 1 && y % p == x % p && y % (2 * p) != x % (2 * p)
    ensures y % (2 * p) == (x + p) % (2 * p)
  {
    LowHalf(y, p);
    LowHalf(x, p);
    LowHalf(x + p, p);
    SameRest(x, p, p);
    ModUnique(p, p, 1, 0);
    SameRest(x, p, 2 * p);
    ModUnique(p, 2 * p, 0, p);
  }

  lemma LowHalf(x: nat, p: nat)
    requires p >= 1
    ensures x % (2 * p) == x % p || x % (2 * p) == x % p + p
  {
    var q, r := x / (2 * p), x % (2 * p);
    Associate(p, 2, q);
    if r < p {
      ModUnique(x, p, 2 * q, r);
    } else {
      Distribute(p, 2 * q, 1);
      ModUnique(x, p, 2 * q + 1, r - p);
    }
  }

  /** The number of steps, modulo 2^m, from `x` to `y`. */
  function StepsTo(a: nat, c: nat, x: nat, y: nat, m: nat): nat {
    if m == 0 then 0
    else
      var n := StepsTo(a, c, x, y, m - 1);
      if Iterate(a, c, x, n) % Pow2(m) == y % Pow2(m) then n else n + Pow2(m - 1)
  }

  /** There is one cycle only: from every state every other is reached, in less than 2^m steps. */
  lemma {:induction false} StepsToReach(a: nat, c: nat, x: nat, y: nat, m: nat)
    requires FullPeriod(a, c)
    ensures StepsTo(a, c, x, y, m) < Pow2(m)
    ensures Iterate(a, c, x, StepsTo(a, c, x, y, m)) % Pow2(m) == y % Pow2(m)
  {
    if m > 0 {
      StepsToReach(a, c, x, y, m - 1);
      var n, p := StepsTo(a, c, x, y, m - 1), Pow2(m - 1);
      var z := Iterate(a, c, x, n);
      if z % Pow2(m) != y % Pow2(m) {
        IterateMore(a, c, x, n, p);
        HalfCycle(a, c, z, m - 1);
        OtherHalf(y, z, p);
      }
    }
  }

  // ----- what is seen of the states -----------------------------------------------------------------------------

  function Seen(a: nat, c: nat, m: nat, see: nat -> int, x: nat, n: nat): int {
    see(Iterate(a, c, x, n) % Pow2(m))
  }

  ghost predicate SameAfter(a: nat, c: nat, m: nat, see: nat -> int, x: nat, p: nat, n: nat) {
    Seen(a, c, m, see, x, n + p) == Seen(a, c, m, see, x, n)
  }

  /** `p` steps make no difference to what `see` shows of the states modulo 2^m, at any time of the run. */
  ghost predicate HasPeriod(a: nat, c: nat, m: nat, see: nat -> int, x: nat, p: nat) {
    forall n: nat {:trigger SameAfter(a, c, m, see, x, p, n)} :: SameAfter(a, c, m, see, x, p, n)
  }

  lemma Multiple(n: nat, p: nat)
    requires p >= 1
    ensures n >= n % p && (n - n % p) % p == 0
  {
    assert n - n % p == p * (n / p);
    ModUnique(n - n % p, p, n / p, 0);
  }

  /** Only the number of steps modulo 2^m matters. */
  lemma IterateRest(a: nat, c: nat, x: nat, n: nat, m: nat)
    requires FullPeriod(a, c)
    ensures Iterate(a, c, x, n) % Pow2(m) == Iterate(a, c, x, n % Pow2(m)) % Pow2(m)
  {
    hide *;
    var p := Pow2(m);
    Multiple(n, p);
    IterateMore(a, c, x, n % p, n - n % p);
    ReturnsIff(a, c, Iterate(a, c, x, n % p), n - n % p, m);
  }

  lemma {:induction false} PeriodTimes(a: nat, c: nat, m: nat, see: nat -> int, x: nat, p: nat, t: nat, n: nat)
    requires HasPeriod(a, c, m, see, x, p)
    ensures Seen(a, c, m, see, x, n + p * t) == Seen(a, c, m, see, x, n)
  {
    hide Seen;
    if t > 0 {
      PeriodTimes(a, c, m, see, x, p, t - 1, n);
      Distribute(p, t - 1, 1);
      assert SameAfter(a, c, m, see, x, p, n + p * (t - 1));
    }
  }

  /** A multiple of p that is 2^(m-1) modulo 2^m, if p itself is no multiple of 2^m. */
  lemma {:induction false} ScaleUp(m: nat, p: nat) returns (t: nat)
    requires !Divides(m, p)
    ensures m >= 1 && p * t % Pow2(m) == Pow2(m - 1)
  {
    var h := Pow2(m - 1);
    if p % 2 == 1 {
      t := h;
      Distribute(h, 2 * (p / 2), 1);
      Associate(h, 2, p / 2);
      ModUnique(p * h, 2 * h, p / 2, h);
    } else {
      t := ScaleUp(m - 1, p / 2);
      Associate(2, p / 2, t);
      ModDouble(p / 2 * t, h);
    }
  }

  /** If 0 and 2^(m-1) look different, then what is seen has just the periods that the states have. */
  lemma SeenPeriods(a: nat, c: nat, m: nat, see: nat -> int, x: nat, p: nat)
    requires FullPeriod(a, c) && m >= 1 && see(0) != see(Pow2(m - 1))
    ensures HasPeriod(a, c, m, see, x, p) <==> p % Pow2(m) == 0
  {
    hide Iterate, FullPeriod, StepsTo, Pow2, Divides;
    if p % Pow2(m) == 0 {
      forall n: nat
        ensures SameAfter(a, c, m, see, x, p, n)
      {
        IterateMore(a, c, x, n, p);
        ReturnsIff(a, c, Iterate(a, c, x, n), p, m);
      }
    } else if HasPeriod(a, c, m, see, x, p) {
      NoOtherPeriod(a, c, m, see, x, p);
    }
  }

  lemma NoOtherPeriod(a: nat, c: nat, m: nat, see: nat -> int, x: nat, p: nat)
    requires FullPeriod(a, c) && m >= 1 && see(0) != see(Pow2(m - 1)) && HasPeriod(a, c, m, see, x, p)
    ensures p % Pow2(m) == 0
  {
    hide Iterate, FullPeriod, StepsTo, Pow2, Divides, HasPeriod;
    DividesIff(m, p);
    if !Divides(m, p) {
      var t := ScaleUp(m, p);
      var n := StepsTo(a, c, x, 0, m);
      PeriodTimes(a, c, m, see, x, p, t, n);
      FromZero(a, c, x, n, p * t, m);
      assert false;
    }
  }

  /** 2^(m-1) steps lead from 0 to 2^(m-1). */
  lemma FromZero(a: nat, c: nat, x: nat, n: nat, r: nat, m: nat)
    requires FullPeriod(a, c) && m >= 1 && n == StepsTo(a, c, x, 0, m) && r % Pow2(m) == Pow2(m - 1)
    ensures Iterate(a, c, x, n) % Pow2(m) == 0 && Iterate(a, c, x, n + r) % Pow2(m) == Pow2(m - 1)
  {
    var y, h := Iterate(a, c, x, n), Pow2(m - 1);
    StepsToReach(a, c, x, 0, m);
    ModUnique(0, 2 * h, 0, 0);
    IterateMore(a, c, x, n, r);
    IterateRest(a, c, y, r, m);
    HalfCycle(a, c, y, m - 1);
    SameRest(h, y, 2 * h);
    ModUnique(h, 2 * h, 0, h);
  }

  // ----- the generator ------------------------------------------------------------------------------------------

  /** One step in 64-bit arithmetic, of which 48 bits are kept. */
  function Step(x: u64): u64 {
    (x * MULTIPLIER % 0x1_0000_0000_0000_0000 + INCREMENT) % 0x1_0000_0000_0000_0000 % MODULUS
  }

  /** What `rand` makes of a state; `do_div` takes the remainder by `RAND_MAX` and then adds one. */
  function Output(x: nat): int {
    x / 4096 % RAND_MAX + 1
  }

  class Generator {
    var next: u64

    constructor ()
      ensures next == 1
    {
      next := 1;
    }

    /** The number returned is one more than the top 36 bits of the new state modulo 2^31 - 1. */
    method Rand() returns (r: int)
      modifies this
      ensures next == Step(old(next)) && r == Output(next)
      ensures next == (25214903917 * old(next) + 11) % 281474976710656
      ensures r == next / 4096 % 2147483647 + 1 && 1 <= r <= 2147483647
    {
      StepIs(next);
      next := (next * MULTIPLIER % 0x1_0000_0000_0000_0000 + INCREMENT) % 0x1_0000_0000_0000_0000 % MODULUS;
      var result := next / 4096;
      r := result % RAND_MAX + 1;
    }

    method Srand(seed: u32)
      modifies this
      ensures next == seed
    {
      next := seed;
    }
  }

  /** The state after `n` calls of `rand`. */
  function State(seed: u64, n: nat): u64 {
    if n == 0 then seed else Step(State(seed, n - 1))
  }

  lemma Pow2Of48()
    ensures Pow2(48) == MODULUS && Pow2(47) == 0x8000_0000_0000
  {
    assert Pow2(12) == 0x1000;
    assert Pow2(24) == 0x100_0000;
    assert Pow2(36) == 0x10_0000_0000;
    assert Pow2(47) == 0x8000_0000_0000;
  }

  lemma RestOfRest(x: nat, p: nat, q: nat)
    requires p >= 1 && q >= 1
    ensures p * q >= 1 && x % (p * q) % p == x % p
  {
    AtLeast(p, q);
    var k, r := x / (p * q), x % (p * q);
    Associate(p, q, k);
    Distribute(p, q * k, r / p);
    ModUnique(x, p, q * k + r / p, r % p);
  }

  lemma AddRest(x: nat, y: nat, p: nat)
    requires p >= 1
    ensures (x % p + y) % p == (x + y) % p
  {
    Distribute(p, x / p, (x % p + y) / p);
    ModUnique(x + y, p, x / p + (x % p + y) / p, (x % p + y) % p);
  }

  lemma TimesRest(a: nat, x: nat, p: nat)
    requires p >= 1
    ensures a * (x % p) % p == a * x % p
  {
    Distribute(a, p * (x / p), x % p);
    Associate(a, p, x / p);
    Associate(p, a, x / p);
    Distribute(p, a * (x / p), a * (x % p) / p);
    assert a * (p * (x / p)) == p * (a * (x / p));
    ModUnique(a * x, p, a * (x / p) + a * (x % p) / p, a * (x % p) % p);
  }

  lemma StepIs(x: u64)
    ensures Step(x) == (MULTIPLIER * x + INCREMENT) % MODULUS
  {
    var y: nat := x * MULTIPLIER;
    var z := y % 0x1_0000_0000_0000_0000 + INCREMENT;
    RestOfRest(z, 0x1_0000_0000_0000, 0x1_0000);
    AddRest(y % 0x1_0000_0000_0000_0000, INCREMENT, 0x1_0000_0000_0000);
    RestOfRest(y, 0x1_0000_0000_0000, 0x1_0000);
    AddRest(y, INCREMENT, 0x1_0000_0000_0000);
  }

  lemma {:induction false} StateIs(x: u64, n: nat)
    requires x < MODULUS
    ensures State(x, n) == Iterate(MULTIPLIER, INCREMENT, x, n) % Pow2(48)
  {
    hide Pow2;
    Pow2Of48();
    if n > 0 {
      var y := Iterate(MULTIPLIER, INCREMENT, x, n - 1);
      StateIs(x, n - 1);
      StepIs(State(x, n - 1));
      TimesRest(MULTIPLIER, y, MODULUS);
      AddRest(MULTIPLIER * (y % MODULUS), INCREMENT, MODULUS);
      AddRest(MULTIPLIER * y, INCREMENT, MODULUS);
    }
  }

  lemma {:induction false} StateAfterFirst(seed: u64, n: nat)
    ensures State(seed, n + 1) == State(Step(seed), n)
  {
    if n > 0 { StateAfterFirst(seed, n - 1); }
  }

  /** The states form one cycle: from every one, every other follows, within 2^48 calls. */
  lemma OneCycle(x: u64, y: u64)
    requires x < MODULUS && y < MODULUS
    ensures exists n: nat :: n < MODULUS && State(x, n) == y
  {
    hide Pow2;
    Pow2Of48();
    var n := StepsTo(MULTIPLIER, INCREMENT, x, y, 48);
    StepsToReach(MULTIPLIER, INCREMENT, x, y, 48);
    StateIs(x, n);
    assert State(x, n) == y;
  }

  /** After n calls the generator is in the state it was in exactly when n is a multiple of 2^48. */
  lemma StateReturnsIff(x: u64, n: nat)
    requires x < MODULUS
    ensures State(x, n) == x <==> n % MODULUS == 0
  {
    hide Pow2, Iterate, State;
    Pow2Of48();
    StateIs(x, n);
    ReturnsIff(MULTIPLIER, INCREMENT, x, n, 48);
  }

  ghost predicate RepeatsAt(seed: u64, p: nat, n: nat) {
    Output(State(seed, n + 1 + p)) == Output(State(seed, n + 1))
  }

  /** From any seed the numbers that `rand` returns repeat after p calls exactly when p is a multiple of 2^48. */
  lemma RandPeriod(seed: u64, p: nat)
    ensures (forall n {:trigger RepeatsAt(seed, p, n)} :: RepeatsAt(seed, p, n)) <==> p % MODULUS == 0
  {
    hide Pow2, Output;
    Pow2Of48();
    var x := Step(seed);
    forall n: nat
      ensures RepeatsAt(seed, p, n) <==> SameAfter(MULTIPLIER, INCREMENT, 48, Output, x, p, n)
    {
      StateAfterFirst(seed, n);
      StateAfterFirst(seed, n + p);
      StateIs(x, n);
      StateIs(x, n + p);
    }
    assert Output(0) != Output(0x8000_0000_0000) by { OutputsDiffer(); }
    SeenPeriods(MULTIPLIER, INCREMENT, 48, Output, x, p);
    assert HasPeriod(MULTIPLIER, INCREMENT, 48, Output, x, p) <==> p % MODULUS == 0;
  }

  lemma OutputsDiffer()
    ensures Output(0) == 1 && Output(0x8000_0000_0000) == 17
  {
  }
}
