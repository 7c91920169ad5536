/** Powers of two, as used by the vector's capacity policy. */
module PowersOfTwo {

  /** `n` is 1, 2, 4, 8, ... */
  predicate IsPowerOfTwo(n: nat)
    decreases n
  {
    n == 1 || (n >= 2 && n % 2 == 0 && IsPowerOfTwo(n / 2))
  }

  /** The smallest power of two that is at least `h`; like Rust's
      `usize::next_power_of_two`, it maps 0 and 1 to 1. */
  function NextPowerOfTwo(h: nat): (p: nat)
    ensures IsPowerOfTwo(p)
    ensures h <= p
    ensures h >= 1 ==> p / 2 < h
    decreases h
  {
    if h <= 1 then 1 else 2 * NextPowerOfTwo((h + 1) / 2)
  }

  lemma DoubleIsPowerOfTwo(n: nat)
    requires IsPowerOfTwo(n)
    ensures IsPowerOfTwo(2 * n)
  {
  }

  lemma HalfIsPowerOfTwo(n: nat)
    requires IsPowerOfTwo(n) && n >= 2
    ensures IsPowerOfTwo(n / 2) && 2 * (n / 2) == n
  {
  }

  /** Two powers of two are at least a factor of two apart unless equal. */
  lemma {:induction false} PowersOfTwoAreSpread(p: nat, q: nat)
    requires IsPowerOfTwo(p) && IsPowerOfTwo(q)
    requires p / 2 < q
    ensures p <= q
    decreases p
  {
    if p > 1 && q > 1 {
      PowersOfTwoAreSpread(p / 2, q / 2);
    }
  }

  /** `NextPowerOfTwo(h)` is below every other power of two that is at least `h`. */
  lemma NextPowerOfTwoIsLeast(h: nat, q: nat)
    requires IsPowerOfTwo(q) && h <= q
    ensures NextPowerOfTwo(h) <= q
  {
    var p := NextPowerOfTwo(h);
    if h == 0 {
      assert p == 1;
    } else {
      PowersOfTwoAreSpread(p, q);
    }
  }

  /** A power of two above 16 is at least 32. */
  lemma PowerOfTwoAbove16(n: nat)
    requires IsPowerOfTwo(n) && n > 16
    ensures n >= 32 && n % 4 == 0
  {
    PowersOfTwoAreSpread(32, n);
  }
}
