/** Which swaps of two adjacent, unequal digits before the check digits the Russian identifiers
    let through (`pii/checksums.py`). */
module ChecksumSwaps {
  import opened Text
  import opened Checksums
  import opened ChecksumErrors

  /** `t` has the digits of `s` with those at `i` and `i + 1`, which differ, swapped; the first
      `n` digits hold both. */
  ghost predicate SwapIn(s: seq<Digit>, t: seq<Digit>, i: nat, n: nat) {
    i + 1 < n <= |s| && t == Swapped(s, i) && s[i] != s[i + 1]
  }

  /** By how much the first of the two digits grows. */
  function Delta(d: seq<Digit>, i: nat): int
    requires i + 1 < |d|
  {
    d[i + 1] as int - d[i] as int
  }

  lemma TwoChanges(d: seq<Digit>, i: nat)
    requires i + 1 < |d| && d[i] != d[i + 1]
    ensures var once := d[i := d[i + 1]];
      && DifferAt(d, once, i) && DifferAt(once, Swapped(d, i), i + 1)
      && Change(d, once, i) == Delta(d, i) && Change(once, Swapped(d, i), i + 1) == -Delta(d, i)
    ensures -9 <= Delta(d, i) <= 9 && Delta(d, i) != 0
  {}

  lemma SwapKeepsRest(d: seq<Digit>, i: nat, n: nat)
    requires i + 1 < n <= |d|
    ensures |Swapped(d, i)| == |d| && Swapped(d, i)[n..] == d[n..] && Swapped(d, i)[..n] == Swapped(d[..n], i)
  {}

  lemma Factor(v: int, w: int, x: int)
    ensures v * x + w * (-x) == (v - w) * x
  {}

  lemma Negated(w: int, x: int)
    ensures (-w) * (-x) == w * x
  {}

  lemma WeightedSumSwap(w: seq<int>, d: seq<Digit>, i: nat)
    requires |w| <= |d| && i + 1 < |w| && d[i] != d[i + 1]
    ensures WeightedSum(w, Swapped(d, i)) - WeightedSum(w, d) == (w[i] - w[i + 1]) * Delta(d, i)
  {
    hide WeightedSum;
    TwoChanges(d, i);
    var once, twice, x := d[i := d[i + 1]], Swapped(d, i), Delta(d, i);
    hide *;
    WeightedSumChange(w, d, once, i);
    WeightedSumChange(w, once, twice, i + 1);
    Factor(w[i], w[i + 1], x);
  }

  lemma SignedProduct(w: int, x: int, modulus: int)
    requires modulus == 11 || modulus == 101
    requires -10 <= w <= 10 && w != 0 && -9 <= x <= 9 && x != 0
    ensures (w * x) % modulus != 0
  {
    if w > 0 {
      SmallProduct(w, x, modulus);
    } else {
      SmallProduct(-w, -x, modulus);
      Negated(w, x);
    }
  }

  /** Neighbouring weights differ, and by less than the modulus. */
  ghost predicate Distinguishes(w: seq<int>, modulus: int) {
    (modulus == 11 || modulus == 101) && forall j | 0 <= j < |w| - 1 :: -10 <= w[j] - w[j + 1] <= 10 && w[j] != w[j + 1]
  }

  lemma SwapShows(w: seq<int>, d: seq<Digit>, i: nat, modulus: int)
    requires |w| <= |d| && i + 1 < |w| && d[i] != d[i + 1] && Distinguishes(w, modulus)
    ensures WeightedSum(w, d) % modulus != WeightedSum(w, Swapped(d, i)) % modulus
  {
    var v := w[i] - w[i + 1];
    assert -10 <= v <= 10 && v != 0 && (modulus == 11 || modulus == 101);
    hide *;
    TwoChanges(d, i);
    WeightedSumSwap(w, d, i);
    SignedProduct(v, Delta(d, i), modulus);
    ApartBy(WeightedSum(w, d), WeightedSum(w, Swapped(d, i)), v * Delta(d, i), modulus);
  }

  lemma ApartBy(s: int, t: int, p: int, modulus: int)
    requires (modulus == 11 || modulus == 13 || modulus == 101) && t - s == p && p % modulus != 0
    ensures s % modulus != t % modulus
  {
    Residues(s, t, modulus);
  }

  /** INN-10: unnoticed exactly when the two sums are 0 and 10 modulo 11. */
  lemma Inn10Swap(s: string, t: string, i: nat)
    requires Inn10(s) && SwapIn(Digits(s), Digits(t), i, 9)
    ensures Inn10(t) <==> Are(WeightedSum(INN10_WEIGHTS, Digits(s)) % 11,
                              WeightedSum(INN10_WEIGHTS, Digits(t)) % 11, 0, 10)
  {
    hide Digits, WeightedSum;
    SwapShows(INN10_WEIGHTS, Digits(s), i, 11);
  }

  /** INN-12: unnoticed exactly when both sums collide. */
  lemma Inn12Swap(s: string, t: string, i: nat)
    requires Inn12(s) && SwapIn(Digits(s), Digits(t), i, 10)
    ensures Inn12(t) <==>
      && Are(WeightedSum(INN12_WEIGHTS_11, Digits(s)) % 11, WeightedSum(INN12_WEIGHTS_11, Digits(t)) % 11, 0, 10)
      && Are(WeightedSum(INN12_WEIGHTS_12, Digits(s)) % 11, WeightedSum(INN12_WEIGHTS_12, Digits(t)) % 11, 0, 10)
  {
    hide Digits, WeightedSum;
    SwapShows(INN12_WEIGHTS_11, Digits(s), i, 11);
    SwapShows(INN12_WEIGHTS_12, Digits(s), i, 11);
  }

  /** SNILS: unnoticed by the residues of the numbers above 001-001-998, and always between two
      numbers below. */
  lemma SnilsSwap(s: string, t: string, i: nat)
    requires Snils(s) && SwapIn(Digits(s), Digits(t), i, 9)
    ensures var x, y := WeightedSum(SNILS_WEIGHTS, Digits(s)) % 101, WeightedSum(SNILS_WEIGHTS, Digits(t)) % 101;
      Snils(t) <==>
        if EarlySnils(Digits(s)) then EarlySnils(Digits(t)) || y == 0 || y == 100
        else if EarlySnils(Digits(t)) then x == 0 || x == 100
        else Are(x, y, 0, 100)
  {
    hide Digits, WeightedSum, EarlySnils, Swapped, SnilsExpected;
    var a, b := Digits(s), Digits(t);
    SwapKeepsRest(a, i, 9);
    assert a[9..11] == b[9..11] by { assert a[9..11] == a[9..] && b[9..11] == b[9..]; }
    SwapShows(SNILS_WEIGHTS, a, i, 101);
    SnilsMeans(s);
    SnilsMeans(t);
    hide Snils, Number;
  }

  /** Acceptance by the closed formula. */
  lemma SnilsMeans(s: string)
    requires |Digits(s)| == 11
    ensures WeightedSum(SNILS_WEIGHTS, Digits(s)) >= 0
    ensures var given := Number(Digits(s)[9..11]);
      Snils(s) <==> if EarlySnils(Digits(s)) then given == 0
                    else given == WeightedSum(SNILS_WEIGHTS, Digits(s)) % 101 % 100
  {
    hide Digits, WeightedSum, EarlySnils;
    WeightedSumNonNegative(SNILS_WEIGHTS, Digits(s));
    SnilsFormula(WeightedSum(SNILS_WEIGHTS, Digits(s)));
  }

  lemma NineTimes(p: int, x: int)
    ensures (10 * p) * x + p * (-x) == p * (9 * x)
  {}

  lemma NineShows(x: int, modulus: int)
    requires (modulus == 11 || modulus == 13) && -9 <= x <= 9 && x != 0
    ensures (9 * x) % modulus != 0
  {}

  lemma NumberSwap(d: seq<Digit>, i: nat)
    requires i + 1 < |d| && d[i] != d[i + 1]
    ensures |Swapped(d, i)| == |d| && Number(Swapped(d, i)) - Number(d) == Pow10(|d| - 2 - i) * (9 * Delta(d, i))
  {
    TwoChanges(d, i);
    var once, twice, x, k := d[i := d[i + 1]], Swapped(d, i), Delta(d, i), |d| - 2 - i;
    assert |once| == |twice| == |d| && Pow10(k + 1) == 10 * Pow10(k);
    hide *;
    NumberChange(d, once, i);
    NumberChange(once, twice, i + 1);
    assert |d| - 1 - i == k + 1 && |d| - 1 - (i + 1) == k;
    NineTimes(Pow10(k), x);
  }

  lemma NumberSwapShows(d: seq<Digit>, i: nat, modulus: int)
    requires i + 1 < |d| && d[i] != d[i + 1] && (modulus == 11 || modulus == 13)
    ensures Number(d) % modulus != Number(Swapped(d, i)) % modulus
  {
    hide *;
    TwoChanges(d, i);
    NumberSwap(d, i);
    NineShows(Delta(d, i), modulus);
    PowerKeepsDifference(|d| - 2 - i, 9 * Delta(d, i), modulus);
    ApartBy(Number(d), Number(Swapped(d, i)), Pow10(|d| - 2 - i) * (9 * Delta(d, i)), modulus);
  }

  /** OGRN: unnoticed exactly when the two 12-digit numbers are 0 and 10 modulo 11. */
  lemma OgrnSwap(s: string, t: string, i: nat)
    requires Ogrn(s) && SwapIn(Digits(s), Digits(t), i, 12)
    ensures Ogrn(t) <==> Are(Number(Digits(s)[..12]) % 11, Number(Digits(t)[..12]) % 11, 0, 10)
  {
    hide Digits, Number;
    SwapKeepsRest(Digits(s), i, 12);
    NumberSwapShows(Digits(s)[..12], i, 11);
  }

  /** OGRNIP: unnoticed exactly on 0 and 10, 1 and 11, or 2 and 12 modulo 13. */
  lemma OgrnipSwap(s: string, t: string, i: nat)
    requires Ogrnip(s) && SwapIn(Digits(s), Digits(t), i, 14)
    ensures var x, y := Number(Digits(s)[..14]) % 13, Number(Digits(t)[..14]) % 13;
      Ogrnip(t) <==> Are(x, y, 0, 10) || Are(x, y, 1, 11) || Are(x, y, 2, 12)
  {
    hide Digits, Number;
    SwapKeepsRest(Digits(s), i, 14);
    NumberSwapShows(Digits(s)[..14], i, 13);
  }
}
