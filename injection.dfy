/** The injection signatures ("XSS patterns") both validators look for in a
    name before checking its characters, each written as a predicate over the
    text instead of a regular expression. */
module Injection {
  import opened JsText

  /** One signature each:
      Tag           `/<[^>]*>/`
      ScriptScheme  `/javascript:/i`
      EventHandler  `/on\w+\s*=/i`
      EncodedLt     `/%3C/i`           EncodedGt  `/%3E/i`
      EntityLt      `/&lt;/i`          EntityGt   `/&gt;/i`
      CssExpression `/expression\s*\(/i`
      CssUrl        `/url\s*\(/i` */
  datatype Signature =
    | Tag | ScriptScheme | EventHandler | EncodedLt | EncodedGt
    | EntityLt | EntityGt | CssExpression | CssUrl

  /** No '>' strictly between positions `i` and `j`. */
  predicate NoCloseBetween(s: string, i: int, j: int) {
    forall k :: i < k < j && 0 <= k < |s| ==> s[k] != '>'
  }

  /** `/<[^>]*>/`: a '<', a later '>', and no '>' between them. */
  predicate HasTag(s: string) {
    exists i, j :: 0 <= i < j < |s| && s[i] == '<' && s[j] == '>' && NoCloseBetween(s, i, j)
  }

  /** `/on\w+\s*=/i`: "on" in either case, one or more word characters, any
      white space, then '='. */
  predicate HasEventHandler(s: string) {
    exists i, j, k :: 0 <= i < j <= k < |s| &&
      MatchesAt(s, i, "on") && WordRun(s, i + 2, j) && SpaceRun(s, j, k) && k < |s| && s[k] == '='
  }

  /** `/kw\s*\(/i` for a lower-case keyword `kw`. */
  predicate HasCall(s: string, kw: string) {
    exists i, k :: 0 <= i < k < |s| && MatchesAt(s, i, kw) && SpaceRun(s, i + |kw|, k) && k < |s| && s[k] == '('
  }

  /** `pattern.test(s)` for the pattern of `sig`. */
  predicate Matches(sig: Signature, s: string) {
    match sig
    case Tag => HasTag(s)
    case ScriptScheme => ContainsIgnoringCase(s, "javascript:")
    case EventHandler => HasEventHandler(s)
    case EncodedLt => ContainsIgnoringCase(s, "%3c")
    case EncodedGt => ContainsIgnoringCase(s, "%3e")
    case EntityLt => ContainsIgnoringCase(s, "&lt;")
    case EntityGt => ContainsIgnoringCase(s, "&gt;")
    case CssExpression => HasCall(s, "expression")
    case CssUrl => HasCall(s, "url")
  }

  /** Some signature of `sigs` matches `s`: the early-exit scan of a pattern list. */
  predicate MatchesAny(sigs: seq<Signature>, s: string) {
    exists n :: 0 <= n < |sigs| && Matches(sigs[n], s)
  }

  /** The characters every signature needs: '<' (tag), ':' (scheme),
      '=' (event handler), '%' (encoded bracket), '&' (entity), '(' (CSS call). */
  predicate IsMarkupChar(c: char) {
    c == '<' || c == ':' || c == '=' || c == '%' || c == '&' || c == '('
  }

  predicate HasMarkupChar(s: string) {
    exists i :: 0 <= i < |s| && IsMarkupChar(s[i])
  }

  /** A signature literal with a markup character at offset `at` can only
      match where the text has that very character. */
  lemma LiteralMarkup(s: string, i: int, lit: string, at: int)
    requires MatchesAt(s, i, lit) && 0 <= at < |lit| && IsMarkupChar(lit[at])
    ensures HasMarkupChar(s)
  {
    assert Lower(s[i + at]) == lit[at];
    assert IsMarkupChar(s[i + at]);
  }

  /** Every text that matches a signature contains a markup character. */
  lemma SignatureHasMarkupChar(sig: Signature, s: string)
    requires Matches(sig, s)
    ensures HasMarkupChar(s)
  {
    match sig
    case Tag =>
      var i, j :| 0 <= i < j < |s| && s[i] == '<' && s[j] == '>' && NoCloseBetween(s, i, j);
      assert IsMarkupChar(s[i]);
    case ScriptScheme =>
      var i :| 0 <= i <= |s| - 11 && MatchesAt(s, i, "javascript:");
      LiteralMarkup(s, i, "javascript:", 10);
    case EventHandler =>
      var i, j, k :| 0 <= i < j <= k < |s| && MatchesAt(s, i, "on") && WordRun(s, i + 2, j) && SpaceRun(s, j, k) && k < |s| && s[k] == '=';
      assert IsMarkupChar(s[k]);
    case EncodedLt =>
      var i :| 0 <= i <= |s| - 3 && MatchesAt(s, i, "%3c");
      LiteralMarkup(s, i, "%3c", 0);
    case EncodedGt =>
      var i :| 0 <= i <= |s| - 3 && MatchesAt(s, i, "%3e");
      LiteralMarkup(s, i, "%3e", 0);
    case EntityLt =>
      var i :| 0 <= i <= |s| - 4 && MatchesAt(s, i, "&lt;");
      LiteralMarkup(s, i, "&lt;", 0);
    case EntityGt =>
      var i :| 0 <= i <= |s| - 4 && MatchesAt(s, i, "&gt;");
      LiteralMarkup(s, i, "&gt;", 0);
    case CssExpression =>
      var i, k :| 0 <= i < k < |s| && MatchesAt(s, i, "expression") && SpaceRun(s, i + 10, k) && k < |s| && s[k] == '(';
      assert IsMarkupChar(s[k]);
    case CssUrl =>
      var i, k :| 0 <= i < k < |s| && MatchesAt(s, i, "url") && SpaceRun(s, i + 3, k) && k < |s| && s[k] == '(';
      assert IsMarkupChar(s[k]);
  }

  /** The same for a whole pattern list. */
  lemma AnySignatureHasMarkupChar(sigs: seq<Signature>, s: string)
    requires MatchesAny(sigs, s)
    ensures HasMarkupChar(s)
  {
    var n :| 0 <= n < |sigs| && Matches(sigs[n], s);
    SignatureHasMarkupChar(sigs[n], s);
  }

  /** The tag pattern read without its `[^>]*` restriction: a '<' followed,
      anywhere later, by a '>'. The first '>' after the '<' always satisfies
      the restriction, so the two readings agree. */
  lemma TagIffOpenThenClose(s: string)
    ensures HasTag(s) <==> exists i, j :: 0 <= i < j < |s| && s[i] == '<' && s[j] == '>'
  {
    if i, j :| 0 <= i < j < |s| && s[i] == '<' && s[j] == '>' {
      var j' := FirstCloseAfter(s, i, j);
    }
  }

  /** The first '>' after position `i`, given that there is one at `j`. */
  lemma {:induction false} FirstCloseAfter(s: string, i: int, j: int) returns (j': int)
    requires 0 <= i < j < |s| && s[j] == '>'
    ensures i < j' <= j && s[j'] == '>' && NoCloseBetween(s, i, j')
    decreases j - i
  {
    if NoCloseBetween(s, i, j) {
      j' := j;
    } else {
      var k :| i < k < j && 0 <= k < |s| && s[k] == '>';
      j' := FirstCloseAfter(s, i, k);
    }
  }
}
