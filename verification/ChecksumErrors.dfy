/** Which errors the checksums detect: every statement is about all inputs of the right
    length, and says exactly which errors slip through. */
module ChecksumErrors {
  import opened Text
  import opened Checksums

  // ---------------------------------------------------------------------------- separators

  lemma {:induction false} StripAppend(a: string, b: string)
    ensures Strip(a + b) == Strip(a) + Strip(b)
  {
    hide IsDigit;
    if a == "" {
      assert a + b == b;
    } else {
      assert (a + b)[1..] == a[1..] + b && (a + b)[0] == a[0];
      StripAppend(a[1..], b);
    }
  }

  lemma {:induction false} StripNothing(s: string)
    requires forall i | 0 <= i < |s| :: !IsDigit(s[i])
    ensures Strip(s) == ""
  {
    if s != "" {
      StripNothing(s[1..]);
    }
  }

  /** Separators, wherever they stand and however many, change no verdict. */
  lemma SeparatorsNeverMatter(v: Validator, a: string, sep: string, b: string)
    requires v != NoValidator
    requires forall i | 0 <= i < |sep| :: !IsDigit(sep[i])
    ensures Accepts(v, a + sep + b) <==> Accepts(v, a + b)
  {
    StripNothing(sep);
    StripAppend(a + sep, b);
    StripAppend(a, sep);
    StripAppend(a, b);
    assert Strip(a + sep + b) == Strip(a + b);
  }

  // --------------------------------------------------------------------- one digit changed

  /** `b` is `a` with the digit at `i`, and no other, changed. */
  ghost predicate DifferAt(a: seq<Digit>, b: seq<Digit>, i: nat) {
    i < |a| == |b| && a[i] != b[i] && b == a[i := b[i]]
  }

  function Change(a: seq<Digit>, b: seq<Digit>, i: nat): int
    requires i < |a| == |b|
  {
    b[i] as int - a[i] as int
  }

  ghost predicate Are(x: int, y: int, a: int, b: int) {
    (x == a && y == b) || (x == b && y == a)
  }

  lemma WeightedSumStep(w: seq<int>, d: seq<Digit>)
    requires 0 < |w| <= |d|
    ensures WeightedSum(w, d) == w[0] * d[0] + WeightedSum(w[1..], d[1..])
  {}

  lemma Distribute(w: int, x: int, y: int)
    ensures w * y - w * x == w * (y - x)
  {}

  lemma {:induction false} WeightedSumChange(w: seq<int>, a: seq<Digit>, b: seq<Digit>, i: nat)
    requires |w| <= |a| && DifferAt(a, b, i)
    ensures WeightedSum(w, b) - WeightedSum(w, a) == if i < |w| then w[i] * Change(a, b, i) else 0
  {
    if w != [] {
      WeightedSumStep(w, a);
      WeightedSumStep(w, b);
      if i == 0 {
        assert b[1..] == a[1..];
        Distribute(w[0], a[0], b[0]);
      } else {
        WeightedSumChange(w[1..], a[1..], b[1..], i - 1);
        assert a[0] == b[0];
      }
      hide WeightedSum;
    }
  }

  lemma TenTimes(p: int, x: int)
    ensures (10 * p) * x == 10 * (p * x)
  {}

  lemma {:induction false} NumberChange(a: seq<Digit>, b: seq<Digit>, i: nat)
    requires DifferAt(a, b, i)
    ensures Number(b) - Number(a) == Pow10(|a| - 1 - i) * Change(a, b, i)
  {
    var n := |a| - 1;
    if i == n {
      assert a[..n] == b[..n];
      assert Pow10(0) == 1;
    } else {
      NumberChange(a[..n], b[..n], i);
      var p, x := Pow10(n - 1 - i), Change(a, b, i);
      assert Change(a[..n], b[..n], i) == x && Pow10(n - i) == 10 * p;
      assert Number(b) - Number(a) == 10 * (Number(b[..n]) - Number(a[..n]));
      hide Number, Pow10, Change;
      TenTimes(p, x);
    }
  }

  lemma SmallProduct(w: int, x: int, modulus: int)
    requires modulus == 11 || modulus == 101
    requires 0 < w <= 10 && -9 <= x <= 9 && x != 0
    ensures (w * x) % modulus != 0
  {
    assert w == 1 || w == 2 || w == 3 || w == 4 || w == 5 || w == 6 || w == 7 || w == 8 || w == 9 || w == 10;
    if modulus == 11 { assert (w * x) % 11 != 0; } else { assert (w * x) % 101 != 0; }
  }

  lemma TenDivides11(y: int)
    requires (10 * y) % 11 == 0
    ensures y % 11 == 0
  {
    var q := (10 * y) / 11;
    assert 10 * y == 11 * q;
    assert y == 11 * (y - q);
  }

  lemma TenDivides13(y: int)
    requires (10 * y) % 13 == 0
    ensures y % 13 == 0
  {
    var q := (10 * y) / 13;
    assert 10 * y == 13 * q;
    assert y == 13 * (4 * q - 3 * y);
  }

  /** Ten is invertible modulo 11 and 13. */
  lemma TenInvertible(y: int, modulus: int)
    requires modulus == 11 || modulus == 13
    requires y % modulus != 0
    ensures (10 * y) % modulus != 0
  {
    if modulus == 11 {
      if (10 * y) % 11 == 0 { TenDivides11(y); }
    } else {
      if (10 * y) % 13 == 0 { TenDivides13(y); }
    }
  }

  /** So no power of ten hides a digit. */
  lemma {:induction false} PowerKeepsDifference(k: nat, x: int, modulus: int)
    requires modulus == 11 || modulus == 13
    requires x % modulus != 0
    ensures (Pow10(k) * x) % modulus != 0
  {
    if k == 0 {
      assert Pow10(0) * x == x;
    } else {
      PowerKeepsDifference(k - 1, x, modulus);
      var p := Pow10(k - 1);
      TenInvertible(p * x, modulus);
      TenTimes(p, x);
    }
  }

  lemma Residues(s: int, t: int, modulus: int)
    requires modulus == 11 || modulus == 13 || modulus == 101
    requires (t - s) % modulus != 0
    ensures s % modulus != t % modulus
  {}

  /** INN-10: a changed digit goes unnoticed exactly when it is not the check digit and the
      two sums are 0 and 10 modulo 11. */
  lemma Inn10OneDigit(s: string, t: string, i: nat)
    requires Inn10(s) && DifferAt(Digits(s), Digits(t), i)
    ensures Inn10(t) <==> i < 9 && Are(WeightedSum(INN10_WEIGHTS, Digits(s)) % 11,
                                       WeightedSum(INN10_WEIGHTS, Digits(t)) % 11, 0, 10)
  {
    hide Digits, WeightedSum;
    var a, b, w := Digits(s), Digits(t), INN10_WEIGHTS;
    SumsDiffer(w, a, b, i);
  }

  lemma SumsDiffer(w: seq<int>, a: seq<Digit>, b: seq<Digit>, i: nat)
    requires |w| <= |a| && DifferAt(a, b, i)
    requires forall j | 0 <= j < |w| :: 0 < w[j] < 11
    ensures WeightedSum(w, a) % 11 == WeightedSum(w, b) % 11 <==> i >= |w|
  {
    WeightedSumChange(w, a, b, i);
    if i < |w| {
      SmallProduct(w[i], Change(a, b, i), 11);
      Residues(WeightedSum(w, a), WeightedSum(w, b), 11);
    }
  }

  /** INN-12: unnoticed exactly when the digit is one of the first ten and both sums collide. */
  lemma Inn12OneDigit(s: string, t: string, i: nat)
    requires Inn12(s) && DifferAt(Digits(s), Digits(t), i)
    ensures Inn12(t) <==>
      && i < 10
      && Are(WeightedSum(INN12_WEIGHTS_11, Digits(s)) % 11, WeightedSum(INN12_WEIGHTS_11, Digits(t)) % 11, 0, 10)
      && Are(WeightedSum(INN12_WEIGHTS_12, Digits(s)) % 11, WeightedSum(INN12_WEIGHTS_12, Digits(t)) % 11, 0, 10)
  {
    hide Digits, WeightedSum;
    var a, b := Digits(s), Digits(t);
    SumsDiffer(INN12_WEIGHTS_11, a, b, i);
    SumsDiffer(INN12_WEIGHTS_12, a, b, i);
    if i >= 10 { assert i == 10 ==> a[10] != b[10]; }
  }

  lemma PrefixesDiffer(a: seq<Digit>, b: seq<Digit>, i: nat, n: nat, modulus: int)
    requires DifferAt(a, b, i) && n <= |a|
    requires modulus == 11 || modulus == 13
    ensures Number(a[..n]) % modulus == Number(b[..n]) % modulus <==> i >= n
  {
    hide Number;
    if i < n {
      assert DifferAt(a[..n], b[..n], i);
      NumberChange(a[..n], b[..n], i);
      PowerKeepsDifference(n - 1 - i, Change(a, b, i), modulus);
      Residues(Number(a[..n]), Number(b[..n]), modulus);
    } else {
      assert a[..n] == b[..n];
    }
  }

  /** OGRN: unnoticed exactly when the two 12-digit numbers are 0 and 10 modulo 11. */
  lemma OgrnOneDigit(s: string, t: string, i: nat)
    requires Ogrn(s) && DifferAt(Digits(s), Digits(t), i)
    ensures Ogrn(t) <==> i < 12 && Are(Number(Digits(s)[..12]) % 11, Number(Digits(t)[..12]) % 11, 0, 10)
  {
    hide Digits, WeightedSum;
    PrefixesDiffer(Digits(s), Digits(t), i, 12, 11);
  }

  /** OGRNIP: unnoticed exactly on 0 and 10, 1 and 11, or 2 and 12 modulo 13. */
  lemma OgrnipOneDigit(s: string, t: string, i: nat)
    requires Ogrnip(s) && DifferAt(Digits(s), Digits(t), i)
    ensures var x, y := Number(Digits(s)[..14]) % 13, Number(Digits(t)[..14]) % 13;
      Ogrnip(t) <==> i < 14 && (Are(x, y, 0, 10) || Are(x, y, 1, 11) || Are(x, y, 2, 12))
  {
    hide Digits, WeightedSum;
    PrefixesDiffer(Digits(s), Digits(t), i, 14, 13);
  }

  /** The code's case split is one formula; its test for a residue of 101 never holds. */
  lemma SnilsFormula(sum: nat)
    ensures SnilsExpected(sum) == sum % 101 % 100
  {}

  lemma {:induction false} WeightedSumNonNegative(w: seq<int>, d: seq<Digit>)
    requires |w| <= |d| && forall j | 0 <= j < |w| :: 0 <= w[j]
    ensures WeightedSum(w, d) >= 0
  {
    if w != [] {
      WeightedSumNonNegative(w[1..], d[1..]);
    }
  }

  /** SNILS above 001-001-998: unnoticed exactly when the sums are 0 and 100 modulo 101. */
  lemma SnilsOneDigit(s: string, t: string, i: nat)
    requires Snils(s) && DifferAt(Digits(s), Digits(t), i)
    requires !EarlySnils(Digits(s)) && !EarlySnils(Digits(t))
    ensures Snils(t) <==> i < 9 && Are(WeightedSum(SNILS_WEIGHTS, Digits(s)) % 101,
                                       WeightedSum(SNILS_WEIGHTS, Digits(t)) % 101, 0, 100)
  {
    hide Digits, WeightedSum;
    var a, b, w := Digits(s), Digits(t), SNILS_WEIGHTS;
    WeightedSumChange(w, a, b, i);
    WeightedSumNonNegative(w, a);
    WeightedSumNonNegative(w, b);
    SnilsFormula(WeightedSum(w, a));
    SnilsFormula(WeightedSum(w, b));
    if i < 9 {
      assert a[9..11] == b[9..11];
      SmallProduct(w[i], Change(a, b, i), 101);
      Residues(WeightedSum(w, a), WeightedSum(w, b), 101);
    } else {
      assert DifferAt(a[9..11], b[9..11], i - 9);
      NumberChange(a[9..11], b[9..11], i - 9);
      assert Number(a[9..11]) != Number(b[9..11]);
    }
  }

  /** Early SNILS are protected only by their two zeros. */
  lemma EarlySnilsUnprotected(s: string, t: string, i: nat)
    requires Snils(s) && DifferAt(Digits(s), Digits(t), i)
    requires EarlySnils(Digits(s)) && EarlySnils(Digits(t))
    ensures Snils(t) <==> i < 9
  {
    hide Digits, WeightedSum;
    var a, b := Digits(s), Digits(t);
    if i < 9 {
      assert a[9..11] == b[9..11];
    } else {
      assert DifferAt(a[9..11], b[9..11], i - 9);
      NumberChange(a[9..11], b[9..11], i - 9);
    }
  }

  /** A change that crosses 001-001-998 upwards: unnoticed exactly when the later number's sum
      is 0 or 100 modulo 101. */
  lemma SnilsAcrossBoundary(s: string, t: string, i: nat)
    requires Snils(s) && DifferAt(Digits(s), Digits(t), i)
    requires EarlySnils(Digits(s)) && !EarlySnils(Digits(t))
    ensures var r := WeightedSum(SNILS_WEIGHTS, Digits(t)) % 101;
      Snils(t) <==> r == 0 || r == 100
  {
    hide Digits, WeightedSum;
    var a, b := Digits(s), Digits(t);
    WeightedSumNonNegative(SNILS_WEIGHTS, b);
    SnilsFormula(WeightedSum(SNILS_WEIGHTS, b));
    assert a[..9] != b[..9];
    assert a[9..11] == b[9..11];
  }

  /** Downwards: unnoticed exactly when the accepted number's sum is 0 or 100 modulo 101. */
  lemma SnilsAcrossBoundaryDown(s: string, t: string, i: nat)
    requires Snils(s) && DifferAt(Digits(s), Digits(t), i)
    requires !EarlySnils(Digits(s)) && EarlySnils(Digits(t))
    ensures var r := WeightedSum(SNILS_WEIGHTS, Digits(s)) % 101;
      Snils(t) <==> r == 0 || r == 100
  {
    hide Digits, WeightedSum;
    var a, b := Digits(s), Digits(t);
    WeightedSumNonNegative(SNILS_WEIGHTS, a);
    SnilsFormula(WeightedSum(SNILS_WEIGHTS, a));
    assert a[..9] != b[..9];
    assert a[9..11] == b[9..11];
  }

  // --------------------------------------------------------------------------------- Luhn

  function LuhnTerm(d: seq<Digit>, i: nat): int
    requires i < |d|
  {
    if (|d| - i) % 2 == 0 then Doubled(d[i]) else d[i]
  }

  lemma {:induction false} LuhnSumChange(a: seq<Digit>, b: seq<Digit>, i: nat)
    requires DifferAt(a, b, i)
    ensures LuhnSum(b) - LuhnSum(a) == LuhnTerm(b, i) - LuhnTerm(a, i)
  {
    if i == 0 {
      assert a[1..] == b[1..];
    } else {
      LuhnSumChange(a[1..], b[1..], i - 1);
    }
  }

  /** Every single-digit change of an accepted string is rejected, at any length. */
  lemma LuhnDetectsChange(a: seq<Digit>, b: seq<Digit>, i: nat)
    requires LuhnValid(a) && DifferAt(a, b, i)
    ensures !LuhnValid(b)
  {
    hide LuhnSum;
    LuhnSumChange(a, b, i);
  }

  ghost function Swapped(d: seq<Digit>, i: nat): seq<Digit>
    requires i + 1 < |d|
  {
    d[i := d[i + 1]][i + 1 := d[i]]
  }

  /** A swap is two changes. */
  lemma SwapShift(d: seq<Digit>, i: nat)
    requires i + 1 < |d| && d[i] != d[i + 1]
    ensures LuhnSum(Swapped(d, i)) as int - LuhnSum(d) as int ==
      if (|d| - i) % 2 == 0 then Doubled(d[i + 1]) as int + d[i] as int - Doubled(d[i]) as int - d[i + 1] as int
      else Doubled(d[i]) as int + d[i + 1] as int - Doubled(d[i + 1]) as int - d[i] as int
  {
    hide LuhnSum, Doubled;
    var once := d[i := d[i + 1]];
    LuhnSumChange(d, once, i);
    LuhnSumChange(once, Swapped(d, i), i + 1);
  }

  lemma SwapTerms(x: Digit, y: Digit)
    requires x != y
    ensures (Doubled(y) as int + x as int - Doubled(x) as int - y as int) % 10 == 0 <==> Are(x, y, 0, 9)
  {}

  /** A swap of adjacent unequal digits is rejected unless they are 0 and 9. */
  lemma LuhnDetectsSwap(d: seq<Digit>, i: nat)
    requires LuhnValid(d) && i + 1 < |d| && d[i] != d[i + 1]
    ensures LuhnValid(Swapped(d, i)) <==> Are(d[i], d[i + 1], 0, 9)
  {
    hide LuhnSum, Swapped, Doubled;
    SwapShift(d, i);
    SwapTerms(d[i], d[i + 1]);
    SwapTerms(d[i + 1], d[i]);
  }

  lemma {:induction false} LuhnSumSnoc(payload: seq<Digit>, c: Digit)
    ensures LuhnSum(payload + [c]) == LuhnSum(payload + [0]) + c
  {
    if payload == [] {
      assert payload + [c] == [c] && payload + [0] == [0];
      assert [c][1..] == [] && [0 as Digit][1..] == [];
    } else {
      assert (payload + [c])[1..] == payload[1..] + [c] && (payload + [0])[1..] == payload[1..] + [0];
      LuhnSumSnoc(payload[1..], c);
    }
  }

  function LuhnCheckDigit(payload: seq<Digit>): Digit {
    (10 - LuhnSum(payload + [0]) % 10) % 10
  }

  /** Each payload has exactly one check digit. */
  lemma LuhnCheckDigitUnique(payload: seq<Digit>, c: Digit)
    ensures LuhnValid(payload + [c]) <==> c == LuhnCheckDigit(payload)
  {
    LuhnSumSnoc(payload, c);
    CompletesTen(LuhnSum(payload + [0]), c);
    hide LuhnSum;
  }

  lemma CompletesTen(base: nat, c: Digit)
    ensures (base + c) % 10 == 0 <==> c == (10 - base % 10) % 10
  {
    var q, r := base / 10, base % 10;
    if r + c < 10 {
      assert base + c == 10 * q + (r + c);
    } else {
      assert base + c == 10 * (q + 1) + (r + c - 10);
    }
  }
}
