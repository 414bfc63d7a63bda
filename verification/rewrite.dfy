/**
 The stylesheet rewrite engine of `resolve_resource_urls`: every `url(...)`
 token outside a comment whose reference has no network location is
 replaced by the resolved physical url followed by a recovery comment that
 records the logical path, and the whole text is marked as resolved.

 The catalog lookup (`filerfile`) and `urlparse(...).netloc` are
 parameters: `resolve` maps a logical path to a physical url and
 `hasNetloc` says whether a reference carries a network location.
 */
module Rewrite {
  import opened Wrappers
  import opened Text
  import opened Paths
  import opened Scanner
  import opened Memo
  import opened Marker
  import Comments
  import UrlTokens

  /** The recovery comment `_LOGICAL_URL_TEMPLATE % path`. */
  function LogicalUrl(path: string): string {
    "/* logicalurl('" + path + "') */"
  }

  /** The rewritten token `_RESOURCE_URL_TEMPLATE % (url, path)`. */
  function ResourceUrl(url: string, path: string): string {
    "url('" + url + "') " + LogicalUrl(path)
  }

  /**
   `_get_commented_regions`: the comments of `s` in order, each a genuine
   comment, and every offset where a comment could start lies in one of them.
   */
  function CommentedRegions(s: string): (rs: seq<Span>)
    ensures ValidSpans(s, rs)
    ensures forall k :: 0 <= k < |rs| ==> Comments.IsComment(s, rs[k].start, rs[k].end)
    ensures forall p :: 0 <= p < |s| && Comments.CommentEndAt(s, p).Some? ==> Covers(rs, p)
  {
    var rs := Scan(Comment, s, 0);
    assert forall k :: 0 <= k < |rs| ==> Comments.IsComment(s, rs[k].start, rs[k].end) by {
      forall k | 0 <= k < |rs| ensures Comments.IsComment(s, rs[k].start, rs[k].end) {
        Comments.CommentEndAtIff(s, rs[k].start, rs[k].end);
      }
    }
    rs
  }

  /** `start < x < end` for one region. */
  predicate StrictlyInside(region: Span, x: nat) {
    region.start < x < region.end
  }

  /**
   The comment test of `change_urls`: the token's start or end offset lies
   strictly inside some region.
   */
  function InComment(regions: seq<Span>, m: Span): (b: bool)
    ensures b <==> (exists k :: 0 <= k < |regions| &&
                     (StrictlyInside(regions[k], m.start) || StrictlyInside(regions[k], m.end)))
  {
    if |regions| == 0 then false
    else if StrictlyInside(regions[0], m.start) || StrictlyInside(regions[0], m.end) then true
    else
      var b := InComment(regions[1..], m);
      assert forall k :: 1 <= k < |regions| ==> regions[k] == regions[1..][k - 1];
      b
  }

  /** The characters `strip('\'" ')` removes. */
  const StripChars: set<char> := {'\'', '"', ' '}

  /** The reference of a token: its inner text stripped of quotes and spaces. */
  function Reference(s: string, m: Span): string
    requires m.start + 5 <= m.end <= |s|
  {
    Strip(UrlTokens.Inner(s, m.start, m.end), StripChars)
  }

  /** The logical path a reference resolves to from the stylesheet's folder. */
  function LogicalPath(folder: string, reference: string): string {
    NormPath(Join(folder, reference))
  }

  /**
   What `change_urls` does with a token: keep it when it touches a comment
   or its reference has a network location, otherwise resolve its logical path.
   */
  function TokenAction(s: string, m: Span, regions: seq<Span>, folder: string, hasNetloc: string -> bool)
    : (a: Action)
    requires m.start + 5 <= m.end <= |s|
  {
    if InComment(regions, m) then Keep
    else
      var reference := Reference(s, m);
      if hasNetloc(reference) then Keep
      else Resolve(LogicalPath(folder, reference))
  }

  /** The url tokens of a stylesheet as `re.sub` finds them. */
  function UrlTokenSpans(s: string): (ms: seq<Span>)
    ensures ValidSpans(s, ms)
    ensures forall k :: 0 <= k < |ms| ==> UrlTokens.IsUrlToken(s, ms[k].start, ms[k].end)
    ensures forall k :: 0 <= k < |ms| ==> UrlTokens.UrlEndAt(s, ms[k].start) == Some(ms[k].end)
    ensures forall k :: 0 <= k < |ms| ==> ms[k].start + 5 <= ms[k].end
    ensures forall p :: 0 <= p < |s| && UrlTokens.UrlEndAt(s, p).Some? ==> Covers(ms, p)
  {
    var ms := Scan(UrlToken, s, 0);
    assert forall k :: 0 <= k < |ms| ==> UrlTokens.IsUrlToken(s, ms[k].start, ms[k].end) by {
      forall k | 0 <= k < |ms| ensures UrlTokens.IsUrlToken(s, ms[k].start, ms[k].end) {
        UrlTokens.UrlEndAtIff(s, ms[k].start, ms[k].end);
      }
    }
    ms
  }

  function TokenActions(s: string, folder: string, hasNetloc: string -> bool): (acts: seq<Action>)
    ensures |acts| == |UrlTokenSpans(s)|
    ensures forall k :: 0 <= k < |acts| ==>
      acts[k] == TokenAction(s, UrlTokenSpans(s)[k], CommentedRegions(s), folder, hasNetloc)
  {
    var ms := UrlTokenSpans(s);
    var regions := CommentedRegions(s);
    seq(|ms|, k requires 0 <= k < |ms| => TokenAction(s, ms[k], regions, folder, hasNetloc))
  }

  /** The replacement text for a logical path: resolved url plus recovery comment. */
  function Emit(resolve: string -> string): string -> string {
    p => ResourceUrl(resolve(p), p)
  }

  /** `re.sub(_RESOURCE_URL_REGEX, change_urls, content)`. */
  function RewriteUrls(content: string, folder: string, resolve: string -> string, hasNetloc: string -> bool)
    : string
  {
    var ms := UrlTokenSpans(content);
    Splice(content, ms, Replacements(content, ms, TokenActions(content, folder, hasNetloc), Emit(resolve)))
  }

  /**
   The text kernel of `resolve_resource_urls`: nothing to do (`None`) for
   already-marked content, otherwise the rewritten and marked text, which is
   itself recognised as marked.
   */
  function ResolveContent(content: string, folder: string, resolve: string -> string, hasNetloc: string -> bool)
    : (r: Option<string>)
    ensures r.None? <==> IsAlreadyParsed(content)
    ensures r.Some? ==> IsAlreadyParsed(r.value)
  {
    if IsAlreadyParsed(content) then None
    else
      var out := RewriteUrls(content, folder, resolve, hasNetloc);
      MarkerRoundTrip(out);
      Some(InsertMarker(out))
  }

  /** The content a stylesheet holds after the hook has run on it. */
  function AfterRewrite(content: string, folder: string, resolve: string -> string, hasNetloc: string -> bool)
    : string
  {
    match ResolveContent(content, folder, resolve, hasNetloc)
    case None => content
    case Some(r) => r
  }

  /** Rewriting twice is rewriting once. */
  lemma RewriteIdempotent(content: string, folder: string, resolve: string -> string, hasNetloc: string -> bool)
    ensures var once := AfterRewrite(content, folder, resolve, hasNetloc);
            AfterRewrite(once, folder, resolve, hasNetloc) == once
  {
  }

  /**
   The rewrite engine as the source runs it, with the per-run cache:
   the result is the kernel's, and `calls` lists the logical paths handed
   to `resolve`, each once, exactly those of the tokens that get rewritten.
   */
  method ResolveResourceUrls(content: string, folder: string, resolve: string -> string, hasNetloc: string -> bool)
    returns (r: Option<string>, calls: seq<string>)
    ensures r == ResolveContent(content, folder, resolve, hasNetloc)
    ensures Distinct(calls)
    ensures r.Some? ==> forall p :: p in calls <==> p in ResolvedPaths(TokenActions(content, folder, hasNetloc))
    ensures r.None? ==> calls == []
  {
    if IsAlreadyParsed(content) {
      return None, [];
    }
    var ms := UrlTokenSpans(content);
    var out;
    out, calls := MemoSplice(content, ms, TokenActions(content, folder, hasNetloc), Emit(resolve));
    r := Some(InsertMarker(out));
  }

  /** A token whose start or end lies inside a comment is emitted verbatim. */
  lemma CommentedTokenKept(s: string, m: Span, regions: seq<Span>, folder: string,
                           resolve: string -> string, hasNetloc: string -> bool, k: nat)
    requires m.start + 5 <= m.end <= |s| && k < |regions|
    requires StrictlyInside(regions[k], m.start) || StrictlyInside(regions[k], m.end)
    ensures Replacement(s, m, TokenAction(s, m, regions, folder, hasNetloc), Emit(resolve)) == s[m.start..m.end]
  {
  }

  /** A token whose reference has a network location is emitted verbatim. */
  lemma ExternalTokenKept(s: string, m: Span, regions: seq<Span>, folder: string,
                          resolve: string -> string, hasNetloc: string -> bool)
    requires m.start + 5 <= m.end <= |s|
    requires hasNetloc(Reference(s, m))
    ensures Replacement(s, m, TokenAction(s, m, regions, folder, hasNetloc), Emit(resolve)) == s[m.start..m.end]
  {
  }

  /**
   Any other token becomes `url('F(p)') ` plus the recovery comment for `p`,
   where `p` is the normalised join of the folder and the stripped reference.
   */
  lemma ResolvedTokenShape(s: string, m: Span, regions: seq<Span>, folder: string,
                           resolve: string -> string, hasNetloc: string -> bool)
    requires m.start + 5 <= m.end <= |s|
    requires !InComment(regions, m) && !hasNetloc(Reference(s, m))
    ensures var p := LogicalPath(folder, Reference(s, m));
            Replacement(s, m, TokenAction(s, m, regions, folder, hasNetloc), Emit(resolve)) ==
            ResourceUrl(resolve(p), p)
  {
    var p := LogicalPath(folder, Reference(s, m));
    assert TokenAction(s, m, regions, folder, hasNetloc) == Resolve(p);
  }

  /**
   Surrounding quotes and spaces do not matter: single-quoted, double-quoted
   and bare references, padded with spaces, strip to the same reference.
   */
  lemma QuotingForms(reference: string, before: string, after: string)
    requires reference != [] && reference[0] !in StripChars && reference[|reference| - 1] !in StripChars
    requires forall i :: 0 <= i < |before| ==> before[i] in StripChars
    requires forall i :: 0 <= i < |after| ==> after[i] in StripChars
    ensures Strip(before + reference + after, StripChars) == reference
  {
    StripUnique(before, reference, after, StripChars);
  }

  /** Two tokens outside comments with the same stripped reference get the same replacement. */
  lemma SameReferenceSameReplacement(s1: string, m1: Span, regions1: seq<Span>,
                                     s2: string, m2: Span, regions2: seq<Span>,
                                     folder: string, resolve: string -> string, hasNetloc: string -> bool)
    requires m1.start + 5 <= m1.end <= |s1| && m2.start + 5 <= m2.end <= |s2|
    requires !InComment(regions1, m1) && !InComment(regions2, m2)
    requires Reference(s1, m1) == Reference(s2, m2) && !hasNetloc(Reference(s1, m1))
    ensures Replacement(s1, m1, TokenAction(s1, m1, regions1, folder, hasNetloc), Emit(resolve)) ==
            Replacement(s2, m2, TokenAction(s2, m2, regions2, folder, hasNetloc), Emit(resolve))
  {
    var r := Reference(s1, m1);
    assert TokenAction(s1, m1, regions1, folder, hasNetloc) == Resolve(LogicalPath(folder, r));
    assert TokenAction(s2, m2, regions2, folder, hasNetloc) == Resolve(LogicalPath(folder, r));
  }

  /** An absolute reference resolves to the same logical path from every folder. */
  lemma AbsoluteReferenceIgnoresFolder(s: string, m: Span, regions: seq<Span>,
                                       folder1: string, folder2: string, hasNetloc: string -> bool)
    requires m.start + 5 <= m.end <= |s|
    requires StartsWith(Reference(s, m), "/")
    ensures TokenAction(s, m, regions, folder1, hasNetloc) == TokenAction(s, m, regions, folder2, hasNetloc)
  {
    JoinAbsolute(folder1, Reference(s, m));
    JoinAbsolute(folder2, Reference(s, m));
  }

  /**
   When every token is commented out or external, the text is unchanged
   apart from the marker; without a leading charset rule that is exactly
   the marker, a newline and the original content.
   */
  lemma NothingToResolve(content: string, folder: string, resolve: string -> string, hasNetloc: string -> bool)
    requires !IsAlreadyParsed(content)
    requires forall k :: 0 <= k < |UrlTokenSpans(content)| ==>
      TokenActions(content, folder, hasNetloc)[k] == Keep
    ensures ResolveContent(content, folder, resolve, hasNetloc) == Some(InsertMarker(content))
    ensures Encoding.CharsetEnd(content).None? ==>
      ResolveContent(content, folder, resolve, hasNetloc) == Some(AlreadyParsedMarker + "\n" + content)
  {
    var ms := UrlTokenSpans(content);
    var reps := Replacements(content, ms, TokenActions(content, folder, hasNetloc), Emit(resolve));
    SpliceIdentity(content, ms, reps);
  }

  /**
   The commented-url case: when every token has its start or end strictly
   inside a comment, only the marker is added.
   */
  lemma CommentedContentOnlyMarked(content: string, folder: string, resolve: string -> string,
                                   hasNetloc: string -> bool)
    requires !IsAlreadyParsed(content)
    requires forall k :: 0 <= k < |UrlTokenSpans(content)| ==>
      InComment(CommentedRegions(content), UrlTokenSpans(content)[k])
    ensures ResolveContent(content, folder, resolve, hasNetloc) == Some(InsertMarker(content))
  {
    NothingToResolve(content, folder, resolve, hasNetloc);
  }
}
