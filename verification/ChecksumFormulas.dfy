/** The checksums written out digit by digit, as the identifiers' rules state them
    (`pii/checksums.py`). */
module ChecksumFormulas {
  import opened Checksums
  import opened ChecksumSwaps

  /** The digits as integers. */
  function Ints(d: seq<Digit>): (x: seq<int>)
    ensures |x| == |d|
  {
    seq(|d|, i requires 0 <= i < |d| => d[i] as int)
  }

  lemma TermAt(w: seq<int>, d: seq<Digit>, i: nat)
    requires i < |w| <= |d|
    ensures WeightedSum(w[i..], d[i..]) == w[i] * d[i] + WeightedSum(w[i + 1..], d[i + 1..])
  {
    assert w[i..][0] == w[i] && d[i..][0] == d[i] && w[i..][1..] == w[i + 1..] && d[i..][1..] == d[i + 1..];
  }

  lemma NoTerms(w: seq<int>, d: seq<Digit>)
    requires |w| <= |d|
    ensures WeightedSum(w[|w|..], d[|w|..]) == 0
    ensures WeightedSum(w[0..], d[0..]) == WeightedSum(w, d)
  {
    assert w[0..] == w && d[0..] == d;
  }

  lemma NineTerms(w: seq<int>, d: seq<Digit>)
    requires |w| == 9 <= |d|
    ensures var x := Ints(d);
      WeightedSum(w, d) == w[0] * x[0] + w[1] * x[1] + w[2] * x[2] + w[3] * x[3] + w[4] * x[4]
        + w[5] * x[5] + w[6] * x[6] + w[7] * x[7] + w[8] * x[8]
  {
    hide WeightedSum;
    NoTerms(w, d);
    TermAt(w, d, 0);
    TermAt(w, d, 1);
    TermAt(w, d, 2);
    TermAt(w, d, 3);
    TermAt(w, d, 4);
    TermAt(w, d, 5);
    TermAt(w, d, 6);
    TermAt(w, d, 7);
    TermAt(w, d, 8);
  }

  /** One more weight in front. */
  lemma FirstTerm(y: int, w: seq<int>, d: seq<Digit>)
    requires |w| < |d|
    ensures WeightedSum([y] + w, d) == y * Ints(d)[0] + WeightedSum(w, d[1..])
  {
    assert ([y] + w)[1..] == w;
  }

  /** INN-10: ten digits, the last of them the weighted sum of the others modulo 11 and 10. */
  lemma Inn10Rule(s: string)
    ensures Inn10(s) <==>
      var d := Ints(Digits(s));
      && |d| == 10
      && (2 * d[0] + 4 * d[1] + 10 * d[2] + 3 * d[3] + 5 * d[4] + 9 * d[5] + 4 * d[6] + 6 * d[7] + 8 * d[8]) % 11 % 10
         == d[9]
  {
    var d := Digits(s);
    hide Digits, WeightedSum;
    if |d| == 10 { NineTerms(INN10_WEIGHTS, d); }
  }

  /** INN-12: twelve digits, the last two of them check digits. */
  lemma Inn12Rule(s: string)
    ensures Inn12(s) <==>
      var d := Ints(Digits(s));
      && |d| == 12
      && (7 * d[0] + 2 * d[1] + 4 * d[2] + 10 * d[3] + 3 * d[4] + 5 * d[5] + 9 * d[6] + 4 * d[7] + 6 * d[8]
          + 8 * d[9]) % 11 % 10 == d[10]
      && (3 * d[0] + 7 * d[1] + 2 * d[2] + 4 * d[3] + 10 * d[4] + 3 * d[5] + 5 * d[6] + 9 * d[7] + 4 * d[8]
          + 6 * d[9] + 8 * d[10]) % 11 % 10 == d[11]
  {
    var d := Digits(s);
    hide Digits, WeightedSum;
    if |d| == 12 {
      var w := [2, 4, 10, 3, 5, 9, 4, 6, 8];
      assert INN12_WEIGHTS_11 == [7] + w && INN12_WEIGHTS_12 == [3] + INN12_WEIGHTS_11;
      FirstTerm(7, w, d);
      FirstTerm(3, INN12_WEIGHTS_11, d);
      FirstTerm(7, w, d[1..]);
      assert d[1..][1..] == d[2..];
      NineTerms(w, d[1..]);
      NineTerms(w, d[2..]);
    }
  }

  /** SNILS: eleven digits; up to 001-001-998 the last two are 00, and above the sum of the others,
      weighted 9 to 1, modulo 101 and 100. */
  lemma SnilsRule(s: string)
    ensures Snils(s) <==>
      var d := Ints(Digits(s));
      && |d| == 11
      && 10 * d[9] + d[10] ==
           if Number(Digits(s)[..9]) <= 1001998 then
             0
           else
             (9 * d[0] + 8 * d[1] + 7 * d[2] + 6 * d[3] + 5 * d[4] + 4 * d[5] + 3 * d[6] + 2 * d[7] + d[8]) % 101 % 100
  {
    var d := Digits(s);
    hide Digits, WeightedSum, EarlySnils;
    if |d| == 11 {
      SnilsMeans(s);
      NineTerms(SNILS_WEIGHTS, d);
      TwoDigits(d[9..11]);
      EarlyMeans(d);
      hide Snils, Number;
    }
  }

  lemma TwoDigits(d: seq<Digit>)
    requires |d| == 2
    ensures Number(d) == 10 * d[0] as int + d[1] as int
  {
    assert d[..1] == [d[0]] && d[..1][..0] == [];
    assert Number(d[..1]) == d[0];
  }

  lemma EarlyMeans(d: seq<Digit>)
    requires |d| == 11
    ensures EarlySnils(d) <==> Number(d[..9]) <= 1001998
  {}

  /** From the right, two digits at a time: the last as it is, the one before it doubled, less 9
      when that has two digits. */
  function PairSum(x: seq<int>): int {
    var n := |x|;
    if n == 0 then 0
    else if n == 1 then x[0]
    else PairSum(x[..n - 2]) + (if x[n - 2] >= 5 then 2 * x[n - 2] - 9 else 2 * x[n - 2]) + x[n - 1]
  }

  lemma {:induction false} LastPair(d: seq<Digit>)
    requires |d| >= 2
    ensures var n := |d|; LuhnSum(d) == LuhnSum(d[..n - 2]) + Doubled(d[n - 2]) + d[n - 1]
  {
    var n := |d|;
    if n == 2 {
      assert d[1..] == [d[1]] && LuhnSum([d[1]]) == d[1];
    } else {
      LastPair(d[1..]);
      assert d[1..][..n - 3] == d[..n - 2][1..];
    }
  }

  lemma {:induction false} LuhnByPairs(d: seq<Digit>)
    ensures LuhnSum(d) == PairSum(Ints(d))
  {
    if |d| == 1 {
      assert d[1..] == [];
    } else if |d| > 1 {
      LastPair(d);
      LuhnByPairs(d[..|d| - 2]);
      assert Ints(d)[..|d| - 2] == Ints(d[..|d| - 2]);
    }
  }

  /** A card number: 13 to 19 digits, and the sum by pairs is a multiple of 10. */
  lemma LuhnRule(s: string)
    ensures IsCardNumber(s) <==> var d := Ints(Digits(s)); 13 <= |d| <= 19 && PairSum(d) % 10 == 0
  {
    hide Digits;
    LuhnByPairs(Digits(s));
  }

  /** OGRN and OGRNIP: the number before the check digit modulo 11 or 13, and modulo 10. */
  lemma OgrnRule(s: string)
    ensures Ogrn(s) <==> |Digits(s)| == 13 && Number(Digits(s)[..12]) % 11 % 10 == Digits(s)[12]
    ensures Ogrnip(s) <==> |Digits(s)| == 15 && Number(Digits(s)[..14]) % 13 % 10 == Digits(s)[14]
  {}
}
