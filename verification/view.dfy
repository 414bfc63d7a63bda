/**
 The `css_preprocessor` view: it serves a stylesheet stored in the catalog
 with every quoted `url('...')` reference resolved, relative to the
 stylesheet's own directory, to the url of the stored file it names.
 */
module View {
  import opened Wrappers
  import opened Text
  import opened Paths
  import opened Scanner
  import opened Memo
  import opened Lookup
  import UrlTokens

  /** What the view answers: the rewritten body, a 404, or an escaped exception (a 500). */
  datatype Response = Ok(body: string) | NotFound | ServerError

  /** A lookup result that is false in a boolean context: no file, or a file field with nothing attached. */
  predicate Falsy(f: Lookup<FieldFile>) {
    f.Absent? || (f.Unique? && !Attached(f.value))
  }

  /** The quoted url references of a stylesheet as the view's `re.sub` finds them. */
  function QuotedSpans(s: string): (ms: seq<Span>)
    ensures ValidSpans(s, ms)
    ensures forall k :: 0 <= k < |ms| ==> UrlTokens.IsQuotedUrl(s, ms[k].start, ms[k].end)
    ensures forall k :: 0 <= k < |ms| ==> UrlTokens.QuotedUrlEndAt(s, ms[k].start) == Some(ms[k].end)
    ensures forall k :: 0 <= k < |ms| ==> ms[k].start + 8 <= ms[k].end
    ensures forall p :: 0 <= p < |s| && UrlTokens.QuotedUrlEndAt(s, p).Some? ==> Covers(ms, p)
  {
    var ms := Scan(QuotedUrl, s, 0);
    assert forall k :: 0 <= k < |ms| ==> UrlTokens.IsQuotedUrl(s, ms[k].start, ms[k].end) by {
      forall k | 0 <= k < |ms| ensures UrlTokens.IsQuotedUrl(s, ms[k].start, ms[k].end) {
        UrlTokens.QuotedUrlEndAtIff(s, ms[k].start, ms[k].end);
      }
    }
    ms
  }

  /** The logical path a quoted reference names, from the stylesheet's directory. */
  function ReferencedPath(dir: string, s: string, m: Span): string
    requires m.start + 8 <= m.end <= |s|
  {
    NormPath(Join(dir, UrlTokens.QuotedReference(s, m.start, m.end)))
  }

  /** The view resolves every match; none is kept. */
  function ViewActions(dir: string, s: string): (acts: seq<Action>)
    ensures |acts| == |QuotedSpans(s)|
    ensures forall k :: 0 <= k < |acts| ==> acts[k] == Resolve(ReferencedPath(dir, s, QuotedSpans(s)[k]))
  {
    var ms := QuotedSpans(s);
    seq(|ms|, k requires 0 <= k < |ms| => Resolve(ReferencedPath(dir, s, ms[k])))
  }

  /** The view's replacement for a logical path: `url('...')` around the file's url. */
  function ViewEmit(cat: Catalog): string -> string {
    p => "url('" + UrlOf(cat, p) + "')"
  }

  /** The body the view serves for an attached stylesheet, unless a lookup escapes. */
  function Substituted(cat: Catalog, dir: string, content: string): string {
    var ms := QuotedSpans(content);
    Splice(content, ms, Replacements(content, ms, ViewActions(dir, content), ViewEmit(cat)))
  }

  /**
   `css_preprocessor(request, path)`. A missing or empty stylesheet is a 404
   only when the path ends in `.css`; otherwise reading it fails with a 500,
   as does reading a stored file whose bytes storage cannot produce. The
   view answers with a body exactly when the file is attached, readable,
   and no referenced path makes `filerfile` raise.
   */
  function CssPreprocessor(cat: Catalog, path: string): (r: Response)
    ensures r.NotFound? <==> Falsy(FilerThumbnail(cat, path)) && EndsWith(path, ".css")
    ensures Falsy(FilerThumbnail(cat, path)) && !EndsWith(path, ".css") ==> r == ServerError
    ensures FilerThumbnail(cat, path).Ambiguous? ==> r == ServerError
    ensures r.Ok? <==>
      && FilerThumbnail(cat, path).Unique?
      && Attached(FilerThumbnail(cat, path).value)
      && FilerThumbnail(cat, path).value.content.Some?
      && !SomeLookupEscapes(cat, ResolvedPaths(ViewActions(DirName(path), FilerThumbnail(cat, path).value.content.value)))
  {
    var f := FilerThumbnail(cat, path);
    if f.Ambiguous? then ServerError
    else if Falsy(f) then
      if EndsWith(path, ".css") then NotFound else ServerError
    else
      match f.value.content
      case None => ServerError
      case Some(content) =>
        var dir := DirName(path);
        if SomeLookupEscapes(cat, ResolvedPaths(ViewActions(dir, content))) then ServerError
        else Ok(Substituted(cat, dir, content))
  }

  /**
   An attached, readable stylesheet whose references all resolve without
   raising is served as its substituted text, resolved from the directory
   of the requested path.
   */
  lemma ServedBody(cat: Catalog, path: string, content: string)
    requires FilerThumbnail(cat, path).Unique? && Attached(FilerThumbnail(cat, path).value)
    requires FilerThumbnail(cat, path).value.content == Some(content)
    requires !SomeLookupEscapes(cat, ResolvedPaths(ViewActions(DirName(path), content)))
    ensures CssPreprocessor(cat, path) == Ok(Substituted(cat, DirName(path), content))
  {
    var f := FilerThumbnail(cat, path);
    assert !Falsy(f) && !f.Ambiguous?;
  }

  /**
   The substituted text: the stored text with each quoted reference
   replaced by `url('U')`, `U` the url of the file at the normalised join
   of the directory and the reference, and the text between the references
   copied.
   */
  lemma SubstitutedSpelledOut(cat: Catalog, dir: string, content: string)
    ensures var ms := QuotedSpans(content);
            Substituted(cat, dir, content) == Splice(content, ms, seq(|ms|, k requires 0 <= k < |ms| =>
              "url('" + UrlOf(cat, NormPath(Join(dir, UrlTokens.QuotedReference(content, ms[k].start, ms[k].end)))) + "')"))
  {
    var ms := QuotedSpans(content);
    var reps := seq(|ms|, k requires 0 <= k < |ms| =>
      "url('" + UrlOf(cat, NormPath(Join(dir, UrlTokens.QuotedReference(content, ms[k].start, ms[k].end)))) + "')");
    var actual := Replacements(content, ms, ViewActions(dir, content), ViewEmit(cat));
    forall k | 0 <= k < |ms| ensures actual[k] == reps[k] {
      QuotedReferenceReplaced(cat, dir, content, k);
    }
    assert actual == reps;
  }

  /**
   The view as the source runs it, with its per-request cache: the same
   response, and `filerfile` ran once for each distinct referenced path.
   */
  method CssPreprocessorCached(cat: Catalog, path: string) returns (r: Response, calls: seq<string>)
    ensures r == CssPreprocessor(cat, path)
    ensures Distinct(calls)
    ensures r.Ok? ==> forall p :: p in calls <==>
      p in ResolvedPaths(ViewActions(DirName(path), FilerThumbnail(cat, path).value.content.value))
  {
    var f := FilerThumbnail(cat, path);
    calls := [];
    if f.Ambiguous? {
      r := ServerError;
    } else if Falsy(f) {
      r := if EndsWith(path, ".css") then NotFound else ServerError;
    } else if f.value.content.None? {
      r := ServerError;
    } else {
      var content := f.value.content.value;
      var dir := DirName(path);
      var acts := ViewActions(dir, content);
      if SomeLookupEscapes(cat, ResolvedPaths(acts)) {
        r := ServerError;
      } else {
        var out;
        out, calls := MemoSplice(content, QuotedSpans(content), acts, ViewEmit(cat));
        r := Ok(out);
      }
    }
  }

  /** Each quoted reference becomes `url('U')`, `U` the url of the file at its resolved logical path. */
  lemma QuotedReferenceReplaced(cat: Catalog, dir: string, content: string, k: nat)
    requires k < |QuotedSpans(content)|
    ensures var m := QuotedSpans(content)[k];
            Replacements(content, QuotedSpans(content), ViewActions(dir, content), ViewEmit(cat))[k] ==
            "url('" + UrlOf(cat, ReferencedPath(dir, content, m)) + "')"
  {
  }

  /** A stylesheet with no quoted url reference is served unchanged. */
  lemma NoQuotedReferenceUnchanged(cat: Catalog, path: string)
    requires FilerThumbnail(cat, path).Unique? && Attached(FilerThumbnail(cat, path).value)
    requires FilerThumbnail(cat, path).value.content.Some?
    requires forall p :: 0 <= p < |FilerThumbnail(cat, path).value.content.value| ==>
      UrlTokens.QuotedUrlEndAt(FilerThumbnail(cat, path).value.content.value, p).None?
    ensures CssPreprocessor(cat, path) == Ok(FilerThumbnail(cat, path).value.content.value)
  {
    var f := FilerThumbnail(cat, path);
    var dir := DirName(path);
    var content := f.value.content.value;
    NoQuotedReferenceNothingResolved(cat, dir, content);
    assert !Falsy(f) && !f.Ambiguous?;
    assert !SomeLookupEscapes(cat, ResolvedPaths(ViewActions(dir, content)));
  }

  lemma NoQuotedReferenceNothingResolved(cat: Catalog, dir: string, content: string)
    requires forall p :: 0 <= p < |content| ==> UrlTokens.QuotedUrlEndAt(content, p).None?
    ensures ResolvedPaths(ViewActions(dir, content)) == {}
    ensures Substituted(cat, dir, content) == content
  {
    ScanNoMatch(QuotedUrl, content, 0);
    assert ViewActions(dir, content) == [];
    SpliceNone(content);
  }

  /**
   References are resolved against the directory of the requested path:
   for a request `d/name`, a relative reference from `d`, an absolute one
   on its own.
   */
  lemma ReferenceResolvedFromRequestPath(d: string, name: string, s: string, m: Span)
    requires m.start + 8 <= m.end <= |s|
    requires d != "" && !EndsWith(d, "/") && '/' !in name
    ensures var reference := UrlTokens.QuotedReference(s, m.start, m.end);
            ReferencedPath(DirName(d + "/" + name), s, m) ==
            NormPath(if StartsWith(reference, "/") then reference else d + "/" + reference)
  {
    var reference := UrlTokens.QuotedReference(s, m.start, m.end);
    DirNameOfChild(d, name);
    if !StartsWith(reference, "/") {
      JoinRelative(d, reference);
    }
  }

  /** A request path without a slash has an empty directory, so each reference is resolved on its own. */
  lemma TopLevelReferenceResolvedAlone(path: string, s: string, m: Span)
    requires m.start + 8 <= m.end <= |s| && '/' !in path
    ensures ReferencedPath(DirName(path), s, m) == NormPath(UrlTokens.QuotedReference(s, m.start, m.end))
  {
    var reference := UrlTokens.QuotedReference(s, m.start, m.end);
    DirNameOfPlainName(path);
    assert Join("", reference) == reference by {
      assert "" + reference == reference;
    }
  }
}
