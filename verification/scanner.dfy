/**
 Leftmost, non-overlapping matching as `re.finditer` and `re.sub` perform
 it, and the text `re.sub` builds from the matches it found.
 */
module Scanner {
  import opened Wrappers
  import opened Text
  import Comments
  import UrlTokens

  /** A half-open span `[start, end)` of a text, as `(m.start(), m.end())`. */
  datatype Span = Span(start: nat, end: nat)

  /** The regexes the repository scans stylesheets with. */
  datatype Pattern =
    | Comment                   // _COMMENT_REGEX
    | UrlToken                  // _RESOURCE_URL_REGEX
    | MarkedUrl(snippet: string) // the reindexer's url token followed by a logical-url snippet
    | QuotedUrl                 // the preprocessing view's quoted url

  /** The shortest text each pattern can match. */
  function MinLength(pat: Pattern): nat {
    match pat
    case Comment => 4
    case UrlToken => 5
    case MarkedUrl(snippet) => 6 + |snippet|
    case QuotedUrl => 8
  }

  /** End of the match of `pat` attempted at offset `p`, if it succeeds. */
  function EndAt(pat: Pattern, s: string, p: nat): (r: Option<nat>)
    ensures r.Some? ==> p + MinLength(pat) <= r.value <= |s|
  {
    match pat
    case Comment => Comments.CommentEndAt(s, p)
    case UrlToken => UrlTokens.UrlEndAt(s, p)
    case MarkedUrl(snippet) => UrlTokens.MarkedUrlEndAt(s, p, snippet)
    case QuotedUrl => UrlTokens.QuotedUrlEndAt(s, p)
  }

  /** Spans lie inside `s`, in order, and do not overlap. */
  predicate ValidSpans(s: string, ms: seq<Span>) {
    && (forall k :: 0 <= k < |ms| ==> ms[k].start <= ms[k].end <= |s|)
    && (forall k :: 0 < k < |ms| ==> ms[k - 1].end <= ms[k].start)
  }

  /** Some span of `ms` contains offset `p`. */
  ghost predicate Covers(ms: seq<Span>, p: nat) {
    exists k :: 0 <= k < |ms| && ms[k].start <= p < ms[k].end
  }

  /** What a scan from offset `i` promises about the spans it returns. */
  ghost predicate ScanFrom(pat: Pattern, s: string, i: nat, ms: seq<Span>) {
    && ValidSpans(s, ms)
    && (forall k :: 0 <= k < |ms| ==> i <= ms[k].start && EndAt(pat, s, ms[k].start) == Some(ms[k].end))
    && (forall k :: 0 <= k < |ms| ==> ms[k].start + MinLength(pat) <= ms[k].end)
    && (forall p :: i <= p < |s| && !Covers(ms, p) ==> EndAt(pat, s, p).None?)
  }

  lemma ValidCons(s: string, x: Span, rest: seq<Span>)
    requires x.start <= x.end <= |s| && ValidSpans(s, rest)
    requires rest != [] ==> x.end <= rest[0].start
    ensures ValidSpans(s, [x] + rest)
  {
    var ms := [x] + rest;
    assert forall k :: 0 < k < |ms| ==> ms[k] == rest[k - 1];
  }

  lemma CoversCons(x: Span, rest: seq<Span>, p: nat)
    ensures Covers([x] + rest, p) <==> (x.start <= p < x.end || Covers(rest, p))
  {
    var ms := [x] + rest;
    if Covers(rest, p) {
      var k :| 0 <= k < |rest| && rest[k].start <= p < rest[k].end;
      assert ms[k + 1] == rest[k];
    }
    if Covers(ms, p) {
      var k :| 0 <= k < |ms| && ms[k].start <= p < ms[k].end;
      if k > 0 {
        assert rest[k - 1] == ms[k];
      }
    }
    if x.start <= p < x.end {
      assert ms[0] == x;
    }
  }

  /** A match at `i` followed by a scan from its end is a scan from `i`. */
  lemma ScanCons(pat: Pattern, s: string, i: nat, e: nat, rest: seq<Span>)
    requires EndAt(pat, s, i) == Some(e)
    requires ScanFrom(pat, s, e, rest)
    ensures ScanFrom(pat, s, i, [Span(i, e)] + rest)
  {
    var ms := [Span(i, e)] + rest;
    ValidCons(s, Span(i, e), rest);
    assert forall k :: 0 < k < |ms| ==> ms[k] == rest[k - 1];
    forall p: nat | i <= p < |s| && !Covers(ms, p)
      ensures EndAt(pat, s, p).None?
    {
      CoversCons(Span(i, e), rest, p);
    }
  }

  /**
   The matches of `pat` in `s` from offset `i` on, found the way Python's
   `re` scans: try each offset in turn; after a match resume at its end.
   Every span is a match of the pattern, the spans are ordered and disjoint,
   and no match starts at an offset left outside every span.
   */
  function Scan(pat: Pattern, s: string, i: nat): (ms: seq<Span>)
    ensures ValidSpans(s, ms)
    ensures forall k :: 0 <= k < |ms| ==> i <= ms[k].start && EndAt(pat, s, ms[k].start) == Some(ms[k].end)
    ensures forall k :: 0 <= k < |ms| ==> ms[k].start + MinLength(pat) <= ms[k].end
    ensures forall p :: i <= p < |s| && !Covers(ms, p) ==> EndAt(pat, s, p).None?
    decreases |s| - i
  {
    if i >= |s| then []
    else match EndAt(pat, s, i)
      case Some(e) =>
        var rest := Scan(pat, s, e);
        ScanCons(pat, s, i, e, rest);
        [Span(i, e)] + rest
      case None =>
        Scan(pat, s, i + 1)
  }

  /** Where the pattern matches nowhere, the scan finds nothing. */
  lemma {:induction false} ScanNoMatch(pat: Pattern, s: string, i: nat)
    requires forall p :: i <= p < |s| ==> EndAt(pat, s, p).None?
    ensures Scan(pat, s, i) == []
    decreases |s| - i
  {
    if i < |s| {
      ScanNoMatch(pat, s, i + 1);
    }
  }

  /** Offsets where the pattern matches nowhere are passed over: scanning resumes at the first candidate. */
  lemma {:induction false} ScanSkips(pat: Pattern, s: string, i: nat, j: nat)
    requires i <= j <= |s|
    requires forall p :: i <= p < j ==> EndAt(pat, s, p).None?
    ensures Scan(pat, s, i) == Scan(pat, s, j)
    decreases j - i
  {
    if i < j {
      ScanSkips(pat, s, i + 1, j);
    }
  }

  /**
   `re.sub`'s output from offset `pos`: the text between matches copied,
   each match `ms[k]` (from `k` on) replaced by `reps[k]`.
   */
  function SpliceFrom(s: string, ms: seq<Span>, reps: seq<string>, k: nat, pos: nat): string
    requires ValidSpans(s, ms) && |reps| == |ms| && k <= |ms| && pos <= |s|
    requires k < |ms| ==> pos <= ms[k].start
    decreases |ms| - k
  {
    if k == |ms| then s[pos..]
    else s[pos..ms[k].start] + reps[k] + SpliceFrom(s, ms, reps, k + 1, ms[k].end)
  }

  function Splice(s: string, ms: seq<Span>, reps: seq<string>): string
    requires ValidSpans(s, ms) && |reps| == |ms|
  {
    SpliceFrom(s, ms, reps, 0, 0)
  }

  lemma {:induction false} SpliceFromIdentity(s: string, ms: seq<Span>, reps: seq<string>, k: nat, pos: nat)
    requires ValidSpans(s, ms) && |reps| == |ms| && k <= |ms| && pos <= |s|
    requires k < |ms| ==> pos <= ms[k].start
    requires forall j :: k <= j < |ms| ==> reps[j] == s[ms[j].start..ms[j].end]
    ensures SpliceFrom(s, ms, reps, k, pos) == s[pos..]
    decreases |ms| - k
  {
    if k < |ms| {
      var m := ms[k];
      SpliceFromIdentity(s, ms, reps, k + 1, m.end);
      assert SpliceFrom(s, ms, reps, k, pos) == s[pos..m.start] + reps[k] + s[m.end..];
      ThreeSlices(s, pos, m.start, m.end);
    }
  }

  /** Cutting a suffix of `s` at two offsets and gluing the pieces back gives the suffix. */
  lemma ThreeSlices(s: string, a: nat, b: nat, c: nat)
    requires a <= b <= c <= |s|
    ensures s[a..b] + s[b..c] + s[c..] == s[a..]
  {
  }

  /** Only matched spans change: replacing every match by its own text gives the text back. */
  lemma SpliceIdentity(s: string, ms: seq<Span>, reps: seq<string>)
    requires ValidSpans(s, ms) && |reps| == |ms|
    requires forall j :: 0 <= j < |ms| ==> reps[j] == s[ms[j].start..ms[j].end]
    ensures Splice(s, ms, reps) == s
  {
    SpliceFromIdentity(s, ms, reps, 0, 0);
  }

  /** Text before the first match is copied unchanged. */
  lemma SplicePrefix(s: string, ms: seq<Span>, reps: seq<string>, n: nat)
    requires ValidSpans(s, ms) && |reps| == |ms| && n <= |s|
    requires forall k :: 0 <= k < |ms| ==> n <= ms[k].start
    ensures StartsWith(Splice(s, ms, reps), s[..n])
  {
    if |ms| > 0 {
      assert s[..n] == s[0..ms[0].start][..n];
    }
  }

  /** With no match, `re.sub` returns its input. */
  lemma SpliceNone(s: string)
    ensures Splice(s, [], []) == s
  {
  }
}
