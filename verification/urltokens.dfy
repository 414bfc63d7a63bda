/**
 The three `url(...)` regexes of the repository, each as a matcher that
 says where a match starting at a given offset ends:

 - the rewrite engine's `\burl\(([^\)]*)\)`;
 - the reindexer's `\burl\(([^\)]*)\) ` followed by an escaped logical-url snippet;
 - the preprocessing view's `url\(['"]([^'"]+)['"]\)`.

 Python 2's `re` without the UNICODE flag takes word characters to be
 ASCII letters, digits and `_`, which is what `\b` looks at.
 */
module UrlTokens {
  import opened Wrappers
  import opened Text

  predicate IsWordChar(c: char) {
    ('a' <= c <= 'z') || ('A' <= c <= 'Z') || ('0' <= c <= '9') || c == '_'
  }

  /** `\b` before a word character at `p`: start of text, or a non-word character before it. */
  predicate WordStart(s: string, p: nat)
    requires p <= |s|
  {
    p == 0 || !IsWordChar(s[p - 1])
  }

  const Quotes: set<char> := {'\'', '"'}

  /**
   End of the match of `\burl\(([^\)]*)\)` at `p`: the character class
   cannot cross a `)`, so the token closes at the first `)` after `url(`.
   */
  function UrlEndAt(s: string, p: nat): (r: Option<nat>)
    ensures r.Some? ==> p + 5 <= r.value <= |s|
  {
    if p <= |s| && WordStart(s, p) && StartsWithAt(s, p, "url(") then
      match FindFirst(s, p + 4, {')'})
      case Some(q) => Some(q + 1)
      case None => None
    else None
  }

  /** `s[p..e]` is `url(` at a word start, then text free of `)`, then `)`. */
  ghost predicate IsUrlToken(s: string, p: nat, e: nat) {
    && p + 5 <= e <= |s|
    && WordStart(s, p)
    && StartsWithAt(s, p, "url(")
    && s[e - 1] == ')'
    && (forall j :: p + 4 <= j < e - 1 ==> s[j] != ')')
  }

  lemma UrlEndAtIff(s: string, p: nat, e: nat)
    ensures UrlEndAt(s, p) == Some(e) <==> IsUrlToken(s, p, e)
  {
    if IsUrlToken(s, p, e) {
      assert FindFirst(s, p + 4, {')'}) == Some(e - 1);
    }
  }

  /** The text between `url(` and `)` of a token spanning `s[p..e]`. */
  function Inner(s: string, p: nat, e: nat): string
    requires p + 5 <= e <= |s|
  {
    s[p + 4..e - 1]
  }

  /**
   End of the match of the reindexer's regex at `p`: a url token followed
   by one space and the literal `snippet`. The match covers the snippet.
   */
  function MarkedUrlEndAt(s: string, p: nat, snippet: string): (r: Option<nat>)
    ensures r.Some? ==> p + 6 + |snippet| <= r.value <= |s|
  {
    match UrlEndAt(s, p)
    case Some(e) => if StartsWithAt(s, e, " " + snippet) then Some(e + 1 + |snippet|) else None
    case None => None
  }

  /** The reindexer matches exactly url tokens that the snippet follows after one space. */
  lemma MarkedUrlEndAtIff(s: string, p: nat, snippet: string, e: nat)
    ensures MarkedUrlEndAt(s, p, snippet) == Some(e) <==>
      && e >= |snippet| + 1
      && IsUrlToken(s, p, e - 1 - |snippet|)
      && StartsWithAt(s, e - 1 - |snippet|, " " + snippet)
  {
    if e >= |snippet| + 1 {
      UrlEndAtIff(s, p, e - 1 - |snippet|);
    }
    match UrlEndAt(s, p)
    case Some(t) => UrlEndAtIff(s, p, t);
    case None =>
  }

  /**
   End of the match of `url\(['"]([^'"]+)['"]\)` at `p`: there is no word
   boundary, the opening and closing quotes are chosen independently, and
   the reference runs to the first quote after the opening one.
   */
  function QuotedUrlEndAt(s: string, p: nat): (r: Option<nat>)
    ensures r.Some? ==> p + 8 <= r.value <= |s|
  {
    if StartsWithAt(s, p, "url(") && p + 4 < |s| && s[p + 4] in Quotes then
      match FindFirst(s, p + 5, Quotes)
      case Some(q) => if q > p + 5 && q + 1 < |s| && s[q + 1] == ')' then Some(q + 2) else None
      case None => None
    else None
  }

  /** `s[p..e]` is `url(`, a quote, a non-empty quote-free reference, a quote and `)`. */
  ghost predicate IsQuotedUrl(s: string, p: nat, e: nat) {
    && p + 8 <= e <= |s|
    && StartsWithAt(s, p, "url(")
    && s[p + 4] in Quotes
    && s[e - 2] in Quotes
    && s[e - 1] == ')'
    && (forall j :: p + 5 <= j < e - 2 ==> s[j] !in Quotes)
  }

  lemma QuotedUrlEndAtIff(s: string, p: nat, e: nat)
    ensures QuotedUrlEndAt(s, p) == Some(e) <==> IsQuotedUrl(s, p, e)
  {
    if IsQuotedUrl(s, p, e) {
      assert FindFirst(s, p + 5, Quotes) == Some(e - 2);
    }
  }

  /** The reference captured by the view's regex for a match spanning `s[p..e]`. */
  function QuotedReference(s: string, p: nat, e: nat): string
    requires p + 8 <= e <= |s|
  {
    s[p + 5..e - 2]
  }

  /** Mismatched quotes still match: `url('x")`. */
  lemma MismatchedQuotesMatch()
    ensures QuotedUrlEndAt("url('x\")", 0) == Some(8)
  {
    var s := "url('x\")";
    assert StartsWithAt(s, 0, "url(");
    assert FindFirst(s, 6, Quotes) == Some(6);
    assert FindFirst(s, 5, Quotes) == Some(6);
  }

  /** A quote inside the reference prevents a match at that `url(`: `url('a'b')`. */
  lemma InnerQuoteBlocksMatch()
    ensures QuotedUrlEndAt("url('a'b')", 0) == None
  {
    var s := "url('a'b')";
    assert FindFirst(s, 6, Quotes) == Some(6);
    assert FindFirst(s, 5, Quotes) == Some(6);
  }
}
