/** Characters, decimal numerals, joining and trimming: the parts of the Python and JavaScript
    string libraries that the code relies on. */
module Text {

  datatype Option<+T> = None | Some(value: T) {
    function GetOr(default: T): T {
      if Some? then value else default
    }
  }

  // First code points of the blocks of ten decimal digits (Unicode category Nd) other than the
  // ASCII and the fullwidth ones, as in Unicode 15.0, the version of Python 3.12.
  const DIGIT_BLOCKS: seq<int> := [
    0x660, 0x6F0, 0x7C0, 0x966, 0x9E6, 0xA66, 0xAE6, 0xB66, 0xBE6, 0xC66, 0xCE6, 0xD66, 0xDE6,
    0xE50, 0xED0, 0xF20, 0x1040, 0x1090, 0x17E0, 0x1810, 0x1946, 0x19D0, 0x1A80, 0x1A90, 0x1B50,
    0x1BB0, 0x1C40, 0x1C50, 0xA620, 0xA8D0, 0xA900, 0xA9D0, 0xA9F0, 0xAA50, 0xABF0,
    0x104A0, 0x10D30, 0x11066, 0x110F0, 0x11136, 0x111D0, 0x112F0, 0x11450, 0x114D0, 0x11650,
    0x116C0, 0x11730, 0x118E0, 0x11950, 0x11C50, 0x11D50, 0x11DA0, 0x11F50, 0x16A60, 0x16AC0,
    0x16B50, 0x1D7CE, 0x1D7D8, 0x1D7E2, 0x1D7EC, 0x1D7F6, 0x1E140, 0x1E2F0, 0x1E4F0, 0x1E950,
    0x1FBF0
  ]

  function DigitFrom(code: int, i: nat): (r: Option<nat>)
    ensures r.Some? ==> r.value < 10
    decreases |DIGIT_BLOCKS| - i
  {
    if i >= |DIGIT_BLOCKS| then None
    else if DIGIT_BLOCKS[i] <= code < DIGIT_BLOCKS[i] + 10 then Some(code - DIGIT_BLOCKS[i])
    else DigitFrom(code, i + 1)
  }

  /** The value of a decimal digit character. */
  function DigitOf(c: char): (r: Option<nat>)
    ensures r.Some? ==> r.value < 10
  {
    if '0' <= c <= '9' then Some((c - '0') as int)
    else if c as int < 0x660 then None
    else if 0xFF00 <= c as int < 0xFFF0 then
      // Halfwidth and Fullwidth Forms: its digits are U+FF10 to U+FF19
      if 0xFF10 <= c as int <= 0xFF19 then Some(c as int - 0xFF10) else None
    else DigitFrom(c as int, 0)
  }

  /** The regular-expression class `\d`. */
  predicate IsDigit(c: char) {
    DigitOf(c).Some?
  }

  predicate AllDigits(s: string) {
    forall i | 0 <= i < |s| :: IsDigit(s[i])
  }

  // ------------------------------------------------------------------ decimal numerals

  function DigitChar(d: nat): (c: char)
    requires d < 10
    ensures '0' <= c <= '9' && DigitOf(c) == Some(d)
  {
    '0' + d as char
  }

  /** The numeral an f-string prints for a non-negative number. */
  function Decimal(n: nat): (s: string)
    ensures s != "" && AllDigits(s)
  {
    if n < 10 then [DigitChar(n)] else Decimal(n / 10) + [DigitChar(n % 10)]
  }

  function NumberOf(s: string): nat
    requires AllDigits(s)
  {
    if s == "" then 0 else 10 * NumberOf(s[..|s| - 1]) + DigitOf(s[|s| - 1]).value
  }

  lemma {:induction false} NumberOfDecimal(n: nat)
    ensures NumberOf(Decimal(n)) == n
  {
    if n >= 10 {
      NumberOfDecimal(n / 10);
      assert Decimal(n)[..|Decimal(n)| - 1] == Decimal(n / 10);
    } else {
      assert Decimal(n)[..0] == "";
    }
  }

  lemma DecimalInjective(m: nat, n: nat)
    requires Decimal(m) == Decimal(n)
    ensures m == n
  {
    NumberOfDecimal(m);
    NumberOfDecimal(n);
  }

  function Pow10(k: nat): (p: nat)
    ensures p > 0
  {
    if k == 0 then 1 else 10 * Pow10(k - 1)
  }

  /** A numeral below 10^k has at most k digits. */
  lemma {:induction false} DecimalLength(n: nat, k: nat)
    requires 0 < k && n < Pow10(k)
    ensures |Decimal(n)| <= k
  {
    if n >= 10 {
      assert k > 1;
      DecimalLength(n / 10, k - 1);
    }
  }

  // -------------------------------------------------------------------------- sequences

  /** The parts joined. */
  function Concat(parts: seq<string>): string {
    if parts == [] then "" else parts[0] + Concat(parts[1..])
  }

  lemma {:induction false} ConcatAppend(a: seq<string>, b: seq<string>)
    ensures Concat(a + b) == Concat(a) + Concat(b)
  {
    if a == [] {
      assert a + b == b;
    } else {
      assert (a + b)[1..] == a[1..] + b;
      ConcatAppend(a[1..], b);
    }
  }

  lemma ConcatSnoc(a: seq<string>, x: string)
    ensures Concat(a + [x]) == Concat(a) + x
  {
    ConcatAppend(a, [x]);
    assert [x][1..] == [];
  }

  function IndexOf(s: string, c: char): (n: nat)
    ensures n <= |s|
    ensures forall i | 0 <= i < n :: s[i] != c
    ensures n < |s| ==> s[n] == c
  {
    if s == "" || s[0] == c then 0 else 1 + IndexOf(s[1..], c)
  }

  // ------------------------------------------------------------------------ white space

  /** JavaScript white space and line terminators, as `trim` removes them. */
  predicate IsSpace(c: char) {
    var n := c as int;
    0x09 <= n <= 0x0D || n == 0x20 || n == 0xA0 || n == 0x1680 || 0x2000 <= n <= 0x200A
    || n == 0x2028 || n == 0x2029 || n == 0x202F || n == 0x205F || n == 0x3000 || n == 0xFEFF
  }

  /** The first position from `i` on that is not white space. */
  function FirstInk(s: string, i: nat): (a: nat)
    requires i <= |s|
    ensures i <= a <= |s| && forall k | i <= k < a :: IsSpace(s[k])
    ensures a < |s| ==> !IsSpace(s[a])
    decreases |s| - i
  {
    if i < |s| && IsSpace(s[i]) then FirstInk(s, i + 1) else i
  }

  /** The end of the last stretch before `b` that is not white space. */
  function LastInk(s: string, a: nat, b: nat): (e: nat)
    requires a <= b <= |s|
    ensures a <= e <= b && forall k | e <= k < b :: IsSpace(s[k])
    ensures e > a ==> !IsSpace(s[e - 1])
  {
    if a < b && IsSpace(s[b - 1]) then LastInk(s, a, b - 1) else b
  }

  /** Removes white space at both ends. */
  function Trim(s: string): string {
    s[FirstInk(s, 0)..LastInk(s, FirstInk(s, 0), |s|)]
  }

  /** Trimming removes white space and nothing else, and leaves none at either end. */
  lemma TrimOnlySpaces(s: string) returns (a: nat, b: nat)
    ensures a <= b <= |s| && Trim(s) == s[a..b]
    ensures (forall k | 0 <= k < a :: IsSpace(s[k])) && (forall k | b <= k < |s| :: IsSpace(s[k]))
    ensures a < b ==> !IsSpace(s[a]) && !IsSpace(s[b - 1])
    ensures Trim(s) == "" <==> forall k | 0 <= k < |s| :: IsSpace(s[k])
  {
    hide IsSpace;
    a := FirstInk(s, 0);
    b := LastInk(s, a, |s|);
    if a < |s| { assert a < b; }
  }
}
