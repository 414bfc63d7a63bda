/**
 The text kernel of `update_referencing_css_files`: when a resource is
 saved, every rewritten token in a stylesheet whose recovery comment names
 the resource's logical path gets the resource's current url, and nothing
 else in the stylesheet changes.
 */
module Reindex {
  import opened Wrappers
  import opened Text
  import opened Scanner
  import opened Encoding
  import opened Marker
  import opened Rewrite
  import UrlTokens

  /**
   The matches of the reindexer's regex: a url token, one space and the
   recovery comment of `path`, found the way `re.sub` scans.
   */
  function ReferencingSpans(s: string, path: string): (ms: seq<Span>)
    ensures ValidSpans(s, ms)
    ensures forall k :: 0 <= k < |ms| ==>
      UrlTokens.MarkedUrlEndAt(s, ms[k].start, LogicalUrl(path)) == Some(ms[k].end)
    ensures forall k :: 0 <= k < |ms| ==> ms[k].start + 6 + |LogicalUrl(path)| <= ms[k].end
    ensures forall p :: 0 <= p < |s| && UrlTokens.MarkedUrlEndAt(s, p, LogicalUrl(path)).Some? ==> Covers(ms, p)
  {
    Scan(MarkedUrl(LogicalUrl(path)), s, 0)
  }

  /** The reindexer's replacement `u"url('%s') %s" % (url, snippet)`, for the recovery comment `snippet`. */
  function Repl(url: string, snippet: string): string {
    "url('" + url + "') " + snippet
  }

  /**
   Every match is replaced by the same text, and that text is the token the
   rewrite hook itself produces for the same path and the new url.
   */
  function ReindexReplacements(n: nat, url: string, path: string): (reps: seq<string>)
    ensures |reps| == n
    ensures forall k :: 0 <= k < n ==> reps[k] == ResourceUrl(url, path)
  {
    ReplIsRewrittenToken(url, path);
    seq(n, _ => Repl(url, LogicalUrl(path)))
  }

  /** The reindexer's replacement for the recovery comment of `path` is the rewriter's token for `path`. */
  lemma ReplIsRewrittenToken(url: string, path: string)
    ensures Repl(url, LogicalUrl(path)) == ResourceUrl(url, path)
  {
  }

  /** `re.sub(url_updating_regex, repl, content)` for the resource at `path` now served at `url`. */
  function ReindexText(content: string, path: string, url: string): string {
    var ms := ReferencingSpans(content, path);
    Splice(content, ms, ReindexReplacements(|ms|, url, path))
  }

  /** A match is a url token directly followed by one space and the recovery comment of `path`. */
  lemma MatchIsRecordedReference(s: string, path: string, k: nat)
    requires k < |ReferencingSpans(s, path)|
    ensures var m := ReferencingSpans(s, path)[k];
            var e := m.end - 1 - |LogicalUrl(path)|;
            && UrlTokens.IsUrlToken(s, m.start, e)
            && StartsWithAt(s, e, " " + LogicalUrl(path))
            && e + 1 + |LogicalUrl(path)| == m.end
  {
    var m := ReferencingSpans(s, path)[k];
    UrlTokens.MarkedUrlEndAtIff(s, m.start, LogicalUrl(path), m.end);
  }

  /** A stylesheet that records no reference to the resource is left unchanged. */
  lemma NoReferenceUnchanged(content: string, path: string, url: string)
    requires forall p :: 0 <= p < |content| ==> UrlTokens.MarkedUrlEndAt(content, p, LogicalUrl(path)).None?
    ensures ReindexText(content, path, url) == content
  {
    ScanNoMatch(MarkedUrl(LogicalUrl(path)), content, 0);
    SpliceNone(content);
  }

  /**
   Where `url(`, the closing `)` and the recovery comment sit in a token
   the rewrite engine produced for a url without `)`.
   */
  lemma TokenLayout(oldUrl: string, path: string)
    requires ')' !in oldUrl
    ensures var t := ResourceUrl(oldUrl, path);
            && |t| == |oldUrl| + 8 + |LogicalUrl(path)|
            && t[..4] == "url("
            && t[|oldUrl| + 6] == ')'
            && (forall j :: 4 <= j < |oldUrl| + 6 ==> t[j] != ')')
            && t[|oldUrl| + 7..] == " " + LogicalUrl(path)
  {
    var t := ResourceUrl(oldUrl, path);
    assert t == "url('" + oldUrl + "')" + " " + LogicalUrl(path);
    forall j | 4 <= j < |oldUrl| + 6 ensures t[j] != ')' {
      if 5 <= j < |oldUrl| + 5 {
        assert t[j] == oldUrl[j - 5];
      }
    }
  }

  /** The reindexer's regex matches such a token, recovery comment included, wherever a word boundary precedes it. */
  lemma TokenMatchesAt(s: string, b: nat, oldUrl: string, path: string)
    requires ')' !in oldUrl
    requires StartsWithAt(s, b, ResourceUrl(oldUrl, path)) && UrlTokens.WordStart(s, b)
    ensures UrlTokens.MarkedUrlEndAt(s, b, LogicalUrl(path)) == Some(b + |ResourceUrl(oldUrl, path)|)
  {
    var t := ResourceUrl(oldUrl, path);
    var n := |oldUrl|;
    var e := b + |t|;
    TokenLayout(oldUrl, path);
    assert s[b..b + 4] == s[b..e][..4];
    assert s[b + n + 6] == s[b..e][n + 6];
    assert forall j :: b + 4 <= j < b + n + 6 ==> s[j] != ')' by {
      forall j | b + 4 <= j < b + n + 6 ensures s[j] != ')' {
        assert s[j] == s[b..e][j - b];
      }
    }
    assert FindFirst(s, b + 4, {')'}) == Some(b + n + 6);
    assert UrlTokens.UrlEndAt(s, b) == Some(b + n + 7);
    assert s[b + n + 7..e] == s[b..e][n + 7..];
  }

  /** Without `url(` at an offset, the reindexer's regex does not match there. */
  lemma NoUrlNoMatch(s: string, p: nat, snippet: string)
    requires !StartsWithAt(s, p, "url(")
    ensures EndAt(MarkedUrl(snippet), s, p).None?
  {
  }

  /** A text whose only candidate offset is `b` has exactly the one match there. */
  lemma OnlyMatchAt(s: string, b: nat, e: nat, snippet: string)
    requires b < e <= |s| && EndAt(MarkedUrl(snippet), s, b) == Some(e)
    requires forall p :: 0 <= p < |s| && (p < b || e <= p) ==> !StartsWithAt(s, p, "url(")
    ensures Scan(MarkedUrl(snippet), s, 0) == [Span(b, e)]
  {
    var pat := MarkedUrl(snippet);
    forall p | 0 <= p < b ensures EndAt(pat, s, p).None? {
      NoUrlNoMatch(s, p, snippet);
    }
    forall p | e <= p < |s| ensures EndAt(pat, s, p).None? {
      NoUrlNoMatch(s, p, snippet);
    }
    ScanSkips(pat, s, 0, b);
    ScanNoMatch(pat, s, e);
  }

  /** Substituting a single match keeps the text on either side of it. */
  lemma SpliceOne(s: string, b: nat, e: nat, rep: string)
    requires b <= e <= |s|
    ensures Splice(s, [Span(b, e)], [rep]) == s[..b] + rep + s[e..]
  {
    assert SpliceFrom(s, [Span(b, e)], [rep], 1, e) == s[e..];
  }

  /**
   A token the rewrite engine produced for `path`, whatever `)`-free url it
   held, is brought up to date in place: it becomes the token the engine
   would produce for the new url, and the text around it is kept, provided
   a word boundary precedes it and no other `url(` occurs in the text.
   */
  lemma RewrittenTokenUpdated(before: string, oldUrl: string, path: string, after: string, url: string)
    requires ')' !in oldUrl
    requires before == [] || !UrlTokens.IsWordChar(before[|before| - 1])
    requires var s := before + ResourceUrl(oldUrl, path) + after;
             forall p :: 0 <= p < |s| && (p < |before| || |before| + |ResourceUrl(oldUrl, path)| <= p) ==>
               !StartsWithAt(s, p, "url(")
    ensures ReindexText(before + ResourceUrl(oldUrl, path) + after, path, url) == before + ResourceUrl(url, path) + after
  {
    var t := ResourceUrl(oldUrl, path);
    var s := before + t + after;
    var b := |before|;
    var e := b + |t|;
    assert s[b..e] == t;
    assert b > 0 ==> s[b - 1] == before[b - 1];
    TokenMatchesAt(s, b, oldUrl, path);
    OnlyMatchAt(s, b, e, LogicalUrl(path));
    assert ReindexReplacements(1, url, path) == [ResourceUrl(url, path)];
    SpliceOne(s, b, e, ResourceUrl(url, path));
    assert s[..b] == before && s[e..] == after;
  }

  /** The marker, wherever it stands, never contains the start of a url token. */
  lemma MarkerHoldsNoUrl(s: string, e: nat, p: nat)
    requires StartsWithAt(s, e, AlreadyParsedMarker) && e <= p < e + |AlreadyParsedMarker|
    ensures !StartsWithAt(s, p, "url(")
  {
    var m := AlreadyParsedMarker;
    assert s[e..e + |m|] == m;
    assert forall j :: 0 <= j < |m| && j != 9 ==> m[j] != 'u';
    if p != e + 9 {
      assert s[p] == m[p - e];
      assert s[p] != 'u';
    } else {
      assert s[e + 12] == m[12] == 's';
    }
  }

  /** A charset rule whose name holds no `url(` never contains the start of a url token. */
  lemma CharsetRuleHoldsNoUrl(s: string, p: nat)
    requires CharsetEnd(s).Some? && p < CharsetEnd(s).value
    requires forall j :: 0 <= j < |CharsetName(s)| ==> !StartsWithAt(CharsetName(s), j, "url(")
    ensures !StartsWithAt(s, p, "url(")
  {
    var e := CharsetEnd(s).value;
    CharsetEndIff(s, e);
    assert s[..10] == CharsetOpen;
    if p < 10 {
      assert s[p] == CharsetOpen[p] != 'u';
    } else if p >= e - 2 {
      assert s[p] == '"' || s[p] == ';';
    } else if p + 4 > e - 2 {
      if p + 4 <= |s| {
        assert s[p..p + 4][e - 2 - p] == '"';
      }
    } else {
      var name := CharsetName(s);
      assert name == s[10..e - 2];
      assert name[p - 10..p - 10 + 4] == s[p..p + 4];
      assert !StartsWithAt(name, p - 10, "url(");
    }
  }

  /**
   A stylesheet that opens with the marker keeps it, so the save that
   follows reindexing finds it already resolved and leaves it alone.
   */
  lemma ReindexKeepsMarker(content: string, path: string, url: string)
    requires StartsWith(content, AlreadyParsedMarker)
    ensures StartsWith(ReindexText(content, path, url), AlreadyParsedMarker)
    ensures IsAlreadyParsed(ReindexText(content, path, url))
  {
    var ms := ReferencingSpans(content, path);
    assert content[..|AlreadyParsedMarker|] == AlreadyParsedMarker;
    forall k | 0 <= k < |ms| ensures |AlreadyParsedMarker| <= ms[k].start {
      var m := ms[k];
      assert UrlTokens.UrlEndAt(content, m.start).Some?;
      assert StartsWithAt(content, m.start, "url(");
      if m.start < |AlreadyParsedMarker| {
        MarkerHoldsNoUrl(content, 0, m.start);
      }
    }
    SplicePrefix(content, ms, ReindexReplacements(|ms|, url, path), |AlreadyParsedMarker|);
  }

  /** No recorded reference starts inside a leading charset rule whose name holds no `url(`, nor inside the marker after it. */
  lemma NoReferenceBeforeMarkerEnd(content: string, path: string)
    requires CharsetEnd(content).Some? && StartsWithAt(content, CharsetEnd(content).value, AlreadyParsedMarker)
    requires forall j :: 0 <= j < |CharsetName(content)| ==> !StartsWithAt(CharsetName(content), j, "url(")
    ensures var ms := ReferencingSpans(content, path);
            forall k :: 0 <= k < |ms| ==> CharsetEnd(content).value + |AlreadyParsedMarker| <= ms[k].start
  {
    var e := CharsetEnd(content).value;
    var ms := ReferencingSpans(content, path);
    forall k | 0 <= k < |ms| ensures e + |AlreadyParsedMarker| <= ms[k].start {
      var m := ms[k];
      assert UrlTokens.UrlEndAt(content, m.start).Some?;
      assert StartsWithAt(content, m.start, "url(");
      if m.start < e {
        CharsetRuleHoldsNoUrl(content, m.start);
      } else if m.start < e + |AlreadyParsedMarker| {
        MarkerHoldsNoUrl(content, e, m.start);
      }
    }
  }

  /** A text that starts like `s` up to the end of its marker keeps its charset rule and its marker. */
  lemma CharsetAndMarkerKept(s: string, r: string)
    requires CharsetEnd(s).Some? && StartsWithAt(s, CharsetEnd(s).value, AlreadyParsedMarker)
    requires StartsWith(r, s[..CharsetEnd(s).value + |AlreadyParsedMarker|])
    ensures CharsetEnd(r) == CharsetEnd(s) && CharsetName(r) == CharsetName(s)
    ensures StartsWithAt(r, CharsetEnd(s).value, AlreadyParsedMarker)
  {
    var e := CharsetEnd(s).value;
    var n := e + |AlreadyParsedMarker|;
    assert r[..n] == s[..n];
    assert r[..e] == s[..e];
    assert r == s[..e] + r[e..];
    CharsetEndOfPrefix(s, r[e..]);
    assert r[e..n] == s[e..n];
  }

  /**
   A stylesheet whose marker follows its leading charset rule keeps both
   the rule and the marker, provided the declared name holds no `url(`;
   the save that follows reindexing again finds it already resolved.
   */
  lemma ReindexKeepsMarkerAfterCharset(content: string, path: string, url: string)
    requires CharsetEnd(content).Some? && StartsWithAt(content, CharsetEnd(content).value, AlreadyParsedMarker)
    requires forall j :: 0 <= j < |CharsetName(content)| ==> !StartsWithAt(CharsetName(content), j, "url(")
    ensures var r := ReindexText(content, path, url);
            CharsetEnd(r) == CharsetEnd(content) && CharsetName(r) == CharsetName(content) &&
            StartsWithAt(r, CharsetEnd(content).value, AlreadyParsedMarker)
    ensures IsAlreadyParsed(ReindexText(content, path, url))
  {
    var n := CharsetEnd(content).value + |AlreadyParsedMarker|;
    var ms := ReferencingSpans(content, path);
    NoReferenceBeforeMarkerEnd(content, path);
    SplicePrefix(content, ms, ReindexReplacements(|ms|, url, path), n);
    CharsetAndMarkerKept(content, ReindexText(content, path, url));
  }
}
