/**
 * Character classes and string helpers with Python's meaning: the `\s` and `\d`
 * classes of a `str` regular expression, `str.strip()`, `sep.join(...)`,
 * the `in` operator on strings, `int(...)` of a digit string and `f"{n}"` of an int.
 */
module Text {
  import opened Wrappers

  /** `str.isspace()`, which is also what `\s` matches in a `str` pattern. */
  predicate IsSpace(c: char) {
    || c == ' '
    || ('\U{9}' <= c <= '\U{D}')      // \t \n \v \f \r
    || ('\U{1C}' <= c <= '\U{1F}')    // the four ASCII information separators
    || c == '\U{85}' || c == '\U{A0}' || c == '\U{1680}'
    || ('\U{2000}' <= c <= '\U{200A}')
    || c == '\U{2028}' || c == '\U{2029}' || c == '\U{202F}' || c == '\U{205F}' || c == '\U{3000}'
  }

  /** `\d`, restricted to the ASCII digits. */
  predicate IsDigit(c: char) {
    '0' <= c <= '9'
  }

  datatype Class = Space | Digit

  predicate InClass(c: char, k: Class) {
    match k
    case Space => IsSpace(c)
    case Digit => IsDigit(c)
  }

  /** Every character of s[lo..hi] belongs to class k. */
  predicate AllIn(s: string, lo: int, hi: int, k: Class)
    requires 0 <= lo <= hi <= |s|
  {
    forall t :: lo <= t < hi ==> InClass(s[t], k)
  }

  /** A non-empty string of digits: what `(\d+)` captures and what a build id is. */
  predicate IsNumeral(s: string) {
    |s| > 0 && AllIn(s, 0, |s|, Digit)
  }

  /** How many class-k characters a greedy `\s*` or `\d*` consumes from position i. */
  function RunLength(s: string, i: nat, k: Class): (n: nat)
    requires i <= |s|
    ensures i + n <= |s| && AllIn(s, i, i + n, k)
    ensures i + n < |s| ==> !InClass(s[i + n], k)
    decreases |s| - i
  {
    if i < |s| && InClass(s[i], k) then 1 + RunLength(s, i + 1, k) else 0
  }

  /** A run that ends where the class ends is the greedy run. */
  lemma RunLengthUnique(s: string, i: nat, j: nat, k: Class)
    requires i <= j <= |s| && AllIn(s, i, j, k)
    requires j < |s| ==> !InClass(s[j], k)
    ensures RunLength(s, i, k) == j - i
  {
  }

  /** The literal `lit` occurs in s at position i. */
  predicate HasAt(s: string, i: nat, lit: string) {
    i + |lit| <= |s| && s[i..i + |lit|] == lit
  }

  /** Python's `t in s` for strings. */
  predicate Contains(s: string, t: string) {
    exists i: nat :: i <= |s| && HasAt(s, i, t)
  }

  /** The index of the first `c` in s at or after `from`, if any. */
  function CharIndex(s: string, c: char, from: nat): (r: Option<nat>)
    requires from <= |s|
    ensures r.Some? ==> from <= r.value < |s| && s[r.value] == c
    ensures r.Some? ==> forall t :: from <= t < r.value ==> s[t] != c
    ensures r.None? ==> forall t :: from <= t < |s| ==> s[t] != c
    decreases |s| - from
  {
    if from == |s| then None
    else if s[from] == c then Some(from)
    else CharIndex(s, c, from + 1)
  }

  /** How many whitespace characters end s. */
  function TrailingSpaces(s: string): (n: nat)
    ensures n <= |s| && AllIn(s, |s| - n, |s|, Space)
    ensures n < |s| ==> !IsSpace(s[|s| - n - 1])
  {
    if |s| > 0 && IsSpace(s[|s| - 1]) then
      var p := s[..|s| - 1];
      var n := 1 + TrailingSpaces(p);
      assert forall t :: |s| - n <= t < |s| - 1 ==> s[t] == p[t];
      n
    else 0
  }

  /** Python's `str.strip()`: the text between the leading and the trailing whitespace. */
  function Strip(s: string): (r: string)
    ensures |r| <= |s|
    ensures r == [] || (!IsSpace(r[0]) && !IsSpace(r[|r| - 1]))
  {
    var a := RunLength(s, 0, Space);
    var b := if a == |s| then a else |s| - TrailingSpaces(s);
    assert a < |s| ==> !IsSpace(s[a]);
    s[a..b]
  }

  /** What `strip` removes is whitespace at both ends and nothing else. */
  lemma StripRemovesOnlyEnds(s: string)
    ensures exists a: nat :: a + |Strip(s)| <= |s| && s[a..a + |Strip(s)|] == Strip(s)
                            && AllIn(s, 0, a, Space) && AllIn(s, a + |Strip(s)|, |s|, Space)
  {
    var a := RunLength(s, 0, Space);
    var r := Strip(s);
    assert s[a..a + |r|] == r;
  }

  /** Python's `sep.join(parts)`. */
  function Join(parts: seq<string>, sep: string): string
  {
    if |parts| == 0 then ""
    else if |parts| == 1 then parts[0]
    else Join(parts[..|parts| - 1], sep) + sep + parts[|parts| - 1]
  }

  function DigitValue(c: char): nat
    requires IsDigit(c)
  {
    (c as int - '0' as int) as nat
  }

  function DigitChar(d: nat): (c: char)
    requires d < 10
    ensures IsDigit(c) && DigitValue(c) == d
  {
    ('0' as int + d) as char
  }

  /** Python's `int(s)` of a string of ASCII digits. */
  function NumeralValue(s: string): nat
    requires AllIn(s, 0, |s|, Digit)
  {
    if |s| == 0 then 0
    else
      assert AllIn(s[..|s| - 1], 0, |s| - 1, Digit);
      10 * NumeralValue(s[..|s| - 1]) + DigitValue(s[|s| - 1])
  }

  /** Python's `f"{n}"` for a natural number: its decimal numeral, which `int` reads back as n. */
  function NatToString(n: nat): (r: string)
    ensures IsNumeral(r)
    ensures NumeralValue(r) == n
    ensures r[0] == '0' <==> n == 0
    ensures |r| == 1 || r[0] != '0'
  {
    if n < 10 then
      [DigitChar(n)]
    else
      var p := NatToString(n / 10);
      var r := p + [DigitChar(n % 10)];
      assert r[..|r| - 1] == p;
      r
  }

  /** A numeral without a leading zero (or the single digit "0") is the one `f"{n}"`
      gives for its value: the rendering is the only canonical numeral of each number. */
  lemma {:induction false} NatToStringUnique(s: string)
    requires IsNumeral(s) && (|s| == 1 || s[0] != '0')
    ensures NatToString(NumeralValue(s)) == s
    decreases |s|
  {
    var v := NumeralValue(s);
    var c := s[|s| - 1];
    if |s| == 1 {
      assert DigitChar(DigitValue(c)) == c;
    } else {
      var p := s[..|s| - 1];
      assert AllIn(p, 0, |p|, Digit);
      NatToStringUnique(p);
      assert p[0] == s[0];
      assert NumeralValue(p) != 0;
      assert v / 10 == NumeralValue(p) && v % 10 == DigitValue(c);
      assert DigitChar(DigitValue(c)) == c;
      assert s == p + [c];
    }
  }

  /** Python's `f"{i}"` for an int, such as a process return code (negative after a signal). */
  function IntToString(i: int): (r: string)
    ensures i >= 0 ==> IsNumeral(r) && NumeralValue(r) == i && (|r| == 1 || r[0] != '0')
    ensures i < 0 ==> |r| > 1 && r[0] == '-' && IsNumeral(r[1..]) && NumeralValue(r[1..]) == -i && r[1] != '0'
  {
    if i < 0 then
      var r := "-" + NatToString(-i);
      assert r[1..] == NatToString(-i);
      r
    else NatToString(i)
  }
}
