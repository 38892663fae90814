/** The pieces of JavaScript string and regular-expression semantics that both
    validators rely on, written out over `seq<char>`: the `\s`, `\d` and `\w`
    classes, `String.prototype.trim`, the `i` flag on ASCII patterns, and
    substring search. */
module JsText {

  datatype Option<+T> = None | Some(value: T)

  /** `\s` in a JavaScript regular expression, which is also the set of
      characters `trim` removes: WhiteSpace and LineTerminator of ECMA-262. */
  predicate IsSpace(c: char) {
    var n := c as int;
    n == 0x09 || n == 0x0A || n == 0x0B || n == 0x0C || n == 0x0D || n == 0x20
    || n == 0xA0 || n == 0x1680 || (0x2000 <= n <= 0x200A)
    || n == 0x2028 || n == 0x2029 || n == 0x202F || n == 0x205F
    || n == 0x3000 || n == 0xFEFF
  }

  /** `\d` without the `u` flag: ASCII digits only. */
  predicate IsDigit(c: char) {
    '0' <= c <= '9'
  }

  predicate IsAsciiLetter(c: char) {
    ('a' <= c <= 'z') || ('A' <= c <= 'Z')
  }

  predicate IsAlnum(c: char) {
    IsAsciiLetter(c) || IsDigit(c)
  }

  /** `\w`: ASCII letters, digits and underscore. */
  predicate IsWordChar(c: char) {
    IsAlnum(c) || c == '_'
  }

  /** ASCII lower-casing. Under the `i` flag without `u`, JavaScript folds a
      character only when both it and its upper case are ASCII or both are not,
      so for patterns written in ASCII this is exactly the folding that matters. */
  function Lower(c: char): char {
    if 'A' <= c <= 'Z' then (c as int + 32) as char else c
  }

  /** `s.trimStart()`. */
  function TrimStart(s: string): (r: string)
    decreases |s|
  {
    if |s| > 0 && IsSpace(s[0]) then TrimStart(s[1..]) else s
  }

  /** `s.trimEnd()`. */
  function TrimEnd(s: string): (r: string)
    decreases |s|
  {
    if |s| > 0 && IsSpace(s[|s| - 1]) then TrimEnd(s[..|s| - 1]) else s
  }

  /** `s.trim()`. */
  function Trim(s: string): string {
    TrimEnd(TrimStart(s))
  }

  /** Every character is white space: the reference reading of `trim() === ''`. */
  predicate AllSpace(s: string) {
    forall i :: 0 <= i < |s| ==> IsSpace(s[i])
  }

  lemma {:induction false} TrimStartEmpty(s: string)
    ensures TrimStart(s) == "" <==> AllSpace(s)
    decreases |s|
  {
    if |s| > 0 && IsSpace(s[0]) {
      TrimStartEmpty(s[1..]);
      assert AllSpace(s) <==> AllSpace(s[1..]) by {
        if AllSpace(s[1..]) {
          forall i | 0 <= i < |s| ensures IsSpace(s[i]) {
            if i > 0 { assert s[i] == s[1..][i - 1]; }
          }
        }
      }
    }
  }

  lemma {:induction false} TrimEndKeepsNonSpaceHead(s: string)
    requires s != ""
    ensures !IsSpace(s[0]) ==> TrimEnd(s) != "" && TrimEnd(s)[0] == s[0]
    decreases |s|
  {
    if !IsSpace(s[0]) && IsSpace(s[|s| - 1]) {
      assert |s| > 1;
      TrimEndKeepsNonSpaceHead(s[..|s| - 1]);
    }
  }

  /** `s.trim() === ''` holds exactly when every character of `s` is white space
      (in particular for the empty string). */
  lemma TrimEmptyIffAllSpace(s: string)
    ensures Trim(s) == "" <==> AllSpace(s)
  {
    TrimStartEmpty(s);
    var t := TrimStart(s);
    if t != "" {
      TrimStartHead(s);
      TrimEndKeepsNonSpaceHead(t);
    }
  }

  lemma {:induction false} TrimStartHead(s: string)
    ensures TrimStart(s) != "" ==> !IsSpace(TrimStart(s)[0])
    decreases |s|
  {
    if |s| > 0 && IsSpace(s[0]) {
      TrimStartHead(s[1..]);
    }
  }

  /** `s.trim() === ''`: the "blank" guard of every text validator. */
  predicate IsBlank(s: string) {
    Trim(s) == ""
  }

  /** `/^\d{5}$/.test(s)`: exactly five ASCII digits and nothing else. */
  predicate IsFiveDigits(s: string) {
    |s| == 5 && forall i :: 0 <= i < |s| ==> IsDigit(s[i])
  }

  /** The lower-case literal `lit` occurs in `s` at index `i`, ignoring ASCII case. */
  predicate MatchesAt(s: string, i: int, lit: string) {
    0 <= i && i + |lit| <= |s| && forall k :: 0 <= k < |lit| ==> Lower(s[i + k]) == lit[k]
  }

  /** What the `i` flag makes a literal without capitals match: each of its
      characters matches itself, and a lower-case ASCII letter also matches
      its own capital, 32 code points below; nothing else matches. */
  lemma MatchesAtIffCaseless(s: string, i: int, lit: string)
    requires forall k :: 0 <= k < |lit| ==> !('A' <= lit[k] <= 'Z')
    ensures MatchesAt(s, i, lit) <==>
              0 <= i && i + |lit| <= |s|
              && forall k :: 0 <= k < |lit| ==>
                   s[i + k] == lit[k] || ('a' <= lit[k] <= 'z' && s[i + k] as int == lit[k] as int - 32)
  {
  }

  /** `/lit/i.test(s)` for a lower-case literal `lit`. */
  predicate ContainsIgnoringCase(s: string, lit: string) {
    exists i :: 0 <= i <= |s| - |lit| && MatchesAt(s, i, lit)
  }

  /** Every character of `s[lo..hi]` is white space (`\s*`). */
  predicate SpaceRun(s: string, lo: int, hi: int) {
    0 <= lo <= hi <= |s| && forall p :: lo <= p < hi ==> IsSpace(s[p])
  }

  /** Every character of `s[lo..hi]` is a word character, and there is one (`\w+`). */
  predicate WordRun(s: string, lo: int, hi: int) {
    0 <= lo < hi <= |s| && forall p :: lo <= p < hi ==> IsWordChar(s[p])
  }

  /** The value of a string of decimal digits. */
  function DigitsValue(s: string): nat {
    if |s| == 0 then 0
    else DigitsValue(s[..|s| - 1]) * 10 + (if IsDigit(s[|s| - 1]) then s[|s| - 1] as int - '0' as int else 0)
  }

  /** A non-negative integer as a template literal prints it: its decimal
      digits, which read back as the same number, with no leading zero. */
  function DecimalString(n: nat): (r: string)
    ensures |r| >= 1 && forall i :: 0 <= i < |r| ==> IsDigit(r[i])
    ensures DigitsValue(r) == n
    ensures r[0] == '0' ==> n == 0
    decreases n
  {
    var last := [('0' as int + n % 10) as char];
    if n < 10 then last
    else
      var r := DecimalString(n / 10) + last;
      assert r[..|r| - 1] == DecimalString(n / 10);
      r
  }

  /** The outline of an email address: no white space, a single '@' with at
      least one character before it, and a '.' after the '@' that has at
      least one character on each side. */
  predicate HasAddressShape(s: string) {
    (forall i :: 0 <= i < |s| ==> !IsSpace(s[i]))
    && exists a :: 1 <= a < |s| && s[a] == '@'
         && (forall p :: 0 <= p < |s| && p != a ==> s[p] != '@')
         && (exists j :: a + 1 < j < |s| - 1 && s[j] == '.')
  }
}
