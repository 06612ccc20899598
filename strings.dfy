/**
 * The PHP string built-ins the loader uses (`trim`, `strtolower`,
 * `str_starts_with`, `str_ends_with`, `strpos`, integer-to-string conversion),
 * on strings of characters standing for PHP's bytes.
 */
module PhpStrings {

  /**
   * The characters `trim` strips by default: space, NUL, carriage return, and
   * tab, newline and vertical tab (the codes 9 to 11).
   */
  predicate IsTrimChar(c: char) {
    c == ' ' || c == '\0' || c == '\r' || '\t' <= c <= '\U{0B}'
  }

  predicate AllTrimChars(s: string) {
    forall i :: 0 <= i < |s| ==> IsTrimChar(s[i])
  }

  /** The first index at or after `i` holding a character that `trim` keeps, or `|s|`. */
  function SkipTrimmable(s: string, i: nat): (j: nat)
    requires i <= |s|
    ensures i <= j <= |s|
    ensures forall k :: i <= k < j ==> IsTrimChar(s[k])
    ensures j < |s| ==> !IsTrimChar(s[j])
    decreases |s| - i
  {
    if i < |s| && IsTrimChar(s[i]) then SkipTrimmable(s, i + 1) else i
  }

  /** Scanning back from `j` to no further than `i`: one past the last kept character, or `i`. */
  function SkipTrimmableBack(s: string, i: nat, j: nat): (k: nat)
    requires i <= j <= |s|
    ensures i <= k <= j
    ensures forall m :: k <= m < j ==> IsTrimChar(s[m])
    ensures k > i ==> !IsTrimChar(s[k - 1])
    decreases j
  {
    if j > i && IsTrimChar(s[j - 1]) then SkipTrimmableBack(s, i, j - 1) else j
  }

  /** PHP `trim($s)`: drop the trim characters at both ends. */
  function Trim(s: string): (r: string)
    ensures |r| <= |s|
    ensures r == [] || (!IsTrimChar(r[0]) && !IsTrimChar(r[|r| - 1]))
  {
    var i := SkipTrimmable(s, 0);
    s[i..SkipTrimmableBack(s, i, |s|)]
  }

  /**
   * `trim` is determined by its two cut points: whatever surrounds a core that
   * neither starts nor ends with a trim character, if made of trim characters
   * only, is exactly what `trim` removes.
   */
  lemma TrimExact(pre: string, mid: string, post: string)
    requires AllTrimChars(pre) && AllTrimChars(post)
    requires mid == [] || (!IsTrimChar(mid[0]) && !IsTrimChar(mid[|mid| - 1]))
    ensures Trim(pre + mid + post) == mid
  {
    var s := pre + mid + post;
    var i := SkipTrimmable(s, 0);
    var e := |pre| + |mid|;
    assert forall k :: 0 <= k < |pre| ==> s[k] == pre[k];
    assert forall k :: e <= k < |s| ==> s[k] == post[k - e];
    if mid == [] {
      assert i == |s|;
    } else {
      assert s[|pre|] == mid[0];
      assert i == |pre|;
      var k := SkipTrimmableBack(s, i, |s|);
      assert s[e - 1] == mid[|mid| - 1];
      assert k == e;
      assert s[i..k] == mid;
    }
  }

  /** Trimming twice is trimming once. */
  lemma TrimIdempotent(s: string)
    ensures Trim(Trim(s)) == Trim(s)
  {
    TrimExact([], Trim(s), []);
    assert [] + Trim(s) + [] == Trim(s);
  }

  /** PHP `str_starts_with`. */
  predicate StartsWith(s: string, prefix: string) {
    |prefix| <= |s| && s[..|prefix|] == prefix
  }

  /** PHP `str_ends_with`. */
  predicate EndsWith(s: string, suffix: string) {
    |suffix| <= |s| && s[|s| - |suffix|..] == suffix
  }

  /** The position of the first `c` in `s`, or `|s|` when there is none (PHP `strpos`). */
  function FirstIndex(s: string, c: char): (i: nat)
    ensures i <= |s|
    ensures forall k :: 0 <= k < i ==> s[k] != c
    ensures i < |s| ==> s[i] == c
  {
    if s == [] then 0
    else if s[0] == c then 0
    else 1 + FirstIndex(s[1..], c)
  }

  /** `strtolower` on one byte: only ASCII upper-case letters change. */
  function LowerChar(c: char): char {
    if 'A' <= c <= 'Z' then (c as int - 'A' as int + 'a' as int) as char else c
  }

  /** PHP `strtolower` (ASCII case mapping, as in PHP 8.2 and later). */
  function Lower(s: string): (r: string)
    ensures |r| == |s|
    ensures forall i :: 0 <= i < |s| ==> r[i] == LowerChar(s[i])
  {
    seq(|s|, i requires 0 <= i < |s| => LowerChar(s[i]))
  }

  /** The upper-case form of a lower-case ASCII letter. */
  function UpperChar(c: char): char
    requires 'a' <= c <= 'z'
  {
    (c as int - 'a' as int + 'A' as int) as char
  }

  /** `s` spells the lower-case word `word` with each letter in either case. */
  predicate SpellsInAnyCase(s: string, word: string)
    requires forall i :: 0 <= i < |word| ==> 'a' <= word[i] <= 'z'
  {
    |s| == |word| && forall i :: 0 <= i < |s| ==> s[i] == word[i] || s[i] == UpperChar(word[i])
  }

  /** `strtolower` gives a lower-case word exactly for that word written in any letter case. */
  lemma LowerMatches(s: string, word: string)
    requires forall i :: 0 <= i < |word| ==> 'a' <= word[i] <= 'z'
    ensures Lower(s) == word <==> SpellsInAnyCase(s, word)
  {
    if SpellsInAnyCase(s, word) {
      forall i | 0 <= i < |s| ensures Lower(s)[i] == word[i] { }
    }
    if Lower(s) == word {
      forall i | 0 <= i < |s| ensures s[i] == word[i] || s[i] == UpperChar(word[i]) {
        assert LowerChar(s[i]) == word[i];
      }
    }
  }

  /** A string that lower-cases to a letter word begins with a letter. */
  lemma LowerWordStartsWithLetter(s: string, word: string)
    requires Lower(s) == word && word != [] && 'a' <= word[0] <= 'z'
    ensures ('a' <= s[0] <= 'z') || ('A' <= s[0] <= 'Z')
  {
    assert Lower(s)[0] == LowerChar(s[0]);
  }

  predicate IsDigit(c: char) {
    '0' <= c <= '9'
  }

  predicate AllDigits(s: string) {
    forall i :: 0 <= i < |s| ==> IsDigit(s[i])
  }

  function DigitChar(d: nat): (c: char)
    requires d < 10
    ensures IsDigit(c)
  {
    ('0' as int + d) as char
  }

  function DigitValue(c: char): (d: nat)
    requires IsDigit(c)
    ensures d < 10
  {
    c as int - '0' as int
  }

  /** The value of a string of decimal digits, most significant first. */
  function DecimalValue(s: string): nat
    requires AllDigits(s)
  {
    if s == [] then 0 else DecimalValue(s[..|s| - 1]) * 10 + DigitValue(s[|s| - 1])
  }

  /** The shortest decimal digits of a natural number. */
  function NatToDigits(n: nat): (r: string)
    ensures r != [] && AllDigits(r)
  {
    if n < 10 then [DigitChar(n)] else NatToDigits(n / 10) + [DigitChar(n % 10)]
  }

  /** Reading back the digits PHP writes gives the number. */
  lemma {:induction false} NatDigitsRoundTrip(n: nat)
    ensures DecimalValue(NatToDigits(n)) == n
  {
    var r := NatToDigits(n);
    if n >= 10 {
      NatDigitsRoundTrip(n / 10);
      assert r[..|r| - 1] == NatToDigits(n / 10);
      assert DigitValue(r[|r| - 1]) == n % 10;
    } else {
      assert r[..|r| - 1] == [];
      assert DigitValue(r[0]) == n;
    }
  }

  /** PHP's string form of an integer: `-` for negatives, then the shortest decimal digits. */
  function IntToString(n: int): (r: string)
    ensures r != []
  {
    if n < 0 then "-" + NatToDigits(-n) else NatToDigits(n)
  }
}
