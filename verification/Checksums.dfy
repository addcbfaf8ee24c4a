/** Checksums of Russian identifiers and of card numbers (`pii/checksums.py`), and the errors
    they detect. */
module Checksums {
  import opened Text

  type Digit = d: int | 0 <= d < 10

  /** `_digits`: the text without everything that is not a digit. */
  function Strip(s: string): (r: string)
    ensures AllDigits(r)
  {
    if s == "" then "" else (if IsDigit(s[0]) then [s[0]] else "") + Strip(s[1..])
  }

  function Values(s: string): (d: seq<Digit>)
    requires AllDigits(s)
    ensures |d| == |s|
  {
    seq(|s|, i requires 0 <= i < |s| => DigitOf(s[i]).value)
  }

  function Digits(s: string): seq<Digit> {
    Values(Strip(s))
  }

  /** The digits times their weights, added up, for as many digits as there are weights. */
  function WeightedSum(w: seq<int>, d: seq<Digit>): int
    requires |w| <= |d|
  {
    if w == [] then 0 else w[0] * d[0] + WeightedSum(w[1..], d[1..])
  }

  /** The number that the digits write. */
  function Number(d: seq<Digit>): (n: nat) {
    if d == [] then 0 else 10 * Number(d[..|d| - 1]) + d[|d| - 1]
  }

  const INN10_WEIGHTS: seq<int> := [2, 4, 10, 3, 5, 9, 4, 6, 8]
  const INN12_WEIGHTS_11: seq<int> := [7, 2, 4, 10, 3, 5, 9, 4, 6, 8]
  const INN12_WEIGHTS_12: seq<int> := [3, 7, 2, 4, 10, 3, 5, 9, 4, 6, 8]
  const SNILS_WEIGHTS: seq<int> := [9, 8, 7, 6, 5, 4, 3, 2, 1]

  predicate Inn10(s: string) {
    var d := Digits(s);
    && |d| == 10
    && WeightedSum(INN10_WEIGHTS, d) % 11 % 10 == d[9]
  }

  predicate Inn12(s: string) {
    var d := Digits(s);
    && |d| == 12
    && WeightedSum(INN12_WEIGHTS_11, d) % 11 % 10 == d[10]
    && WeightedSum(INN12_WEIGHTS_12, d) % 11 % 10 == d[11]
  }

  /** The case split on the weighted sum, as the code writes it. */
  function SnilsExpected(sum: int): int {
    if sum < 100 then sum
    else if sum == 100 || sum == 101 then 0
    else
      var r := sum % 101;
      if r == 100 || r == 101 then 0 else r
  }

  predicate EarlySnils(d: seq<Digit>)
    requires |d| == 11
  {
    Number(d[..9]) <= 1001998
  }

  predicate Snils(s: string) {
    var d := Digits(s);
    && |d| == 11
    && var given := Number(d[9..11]);
       if EarlySnils(d) then given == 0
       else SnilsExpected(WeightedSum(SNILS_WEIGHTS, d)) == given
  }

  predicate Ogrn(s: string) {
    var d := Digits(s);
    |d| == 13 && Number(d[..12]) % 11 % 10 == d[12]
  }

  predicate Ogrnip(s: string) {
    var d := Digits(s);
    |d| == 15 && Number(d[..14]) % 13 % 10 == d[14]
  }

  /** `_validate_phone`: eleven digits, the first an ASCII 7 or 8. */
  predicate Phone(s: string) {
    var d := Strip(s);
    |d| == 11 && (d[0] == '7' || d[0] == '8')
  }

  // --------------------------------------------------------------------------------- Luhn

  function Doubled(x: Digit): Digit {
    if x * 2 > 9 then x * 2 - 9 else x * 2
  }

  /** The Luhn sum: from the right, every second digit doubled. */
  function LuhnSum(d: seq<Digit>): nat {
    if d == [] then 0
    else (if |d| % 2 == 0 then Doubled(d[0]) else d[0]) + LuhnSum(d[1..])
  }

  predicate LuhnValid(d: seq<Digit>) {
    LuhnSum(d) % 10 == 0
  }

  predicate IsCardNumber(s: string) {
    13 <= |Digits(s)| <= 19 && LuhnValid(Digits(s))
  }

  method Luhn(s: string) returns (ok: bool)
    ensures ok <==> IsCardNumber(s)
  {
    var d := Digits(s);
    hide Digits;
    if !(13 <= |d| <= 19) {
      return false;
    }
    var total: nat := 0;
    for i := 0 to |d|
      invariant total == LuhnSum(d[|d| - i..])
    {
      var x: nat := d[|d| - 1 - i];
      ghost var rest := d[|d| - 1 - i..];
      assert rest[0] == x && rest[1..] == d[|d| - i..];
      assert LuhnSum(rest) == (if |rest| % 2 == 0 then Doubled(x) else x) + LuhnSum(rest[1..]);
      if i % 2 == 1 {
        var doubled := x * 2;
        total := total + (if doubled > 9 then doubled - 9 else doubled);
      } else {
        total := total + x;
      }
    }
    return total % 10 == 0;
  }

  // --------------------------------------------------------------------------- validators

  datatype Validator =
    NoValidator | LuhnCheck | OgrnipCheck | OgrnCheck | Inn12Check | PhoneCheck | SnilsCheck | Inn10Check

  /** A pattern without a validator accepts everything. */
  predicate Accepts(v: Validator, s: string) {
    match v
    case NoValidator => true
    case LuhnCheck => IsCardNumber(s)
    case OgrnipCheck => Ogrnip(s)
    case OgrnCheck => Ogrn(s)
    case Inn12Check => Inn12(s)
    case PhoneCheck => Phone(s)
    case SnilsCheck => Snils(s)
    case Inn10Check => Inn10(s)
  }
}
