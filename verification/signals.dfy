/**
 The two save hooks on filer files.

 - Before a stylesheet is saved, `resolve_resource_urls` reads it, picks
   its character encoding, and (unless it is already marked) rewrites its
   url references and stores the marked result.
 - After any other resource is saved, `update_referencing_css_files`
   brings every stylesheet that records a reference to it up to date with
   its current url.

 Reading and writing storage, and decoding and encoding text, are given as
 data: a file's bytes are `None` when reading raises `IOError`, and the
 codec functions answer `None` when Python's codec would raise.
 */
module Signals {
  import opened Wrappers
  import opened Text
  import opened Paths
  import opened Encoding
  import opened Marker
  import opened Memo
  import opened Lookup
  import opened Rewrite
  import opened Reindex

  /**
   A filer file: its `name` (empty when blank), `original_filename`, the
   names of its folder and the folder's ancestors from the root (none for
   a file in the clipboard), its stored bytes, its url and `_file_size`.
   */
  datatype StoredFile = StoredFile(
    name: string,
    originalFilename: string,
    folders: seq<string>,
    content: Option<string>,
    url: string,
    size: nat)

  /**
   The codec registry and the dict order of the byte-order-mark table:
   `known` is `codecs.lookup` succeeding, `decode`/`encode` answer `None`
   when `str.decode`/`unicode.encode` raise.
   */
  datatype Codec = Codec(
    known: string -> bool,
    bomOrder: seq<(string, string)>,
    decode: (string, string) -> Option<string>,
    encode: (string, string) -> Option<string>)

  predicate ValidCodec(codec: Codec) {
    IsIterationOrder(codec.bomOrder)
  }

  /** The exceptions that escape a hook. */
  datatype HookError =
    | ReadFailed
    | CharsetInvalid(cause: CharsetError)
    | DecodeFailed
    | LookupFailed(lookup: LookupError)
    | EncodeFailed

  /** `_get_filer_file_name`: the name, or the original filename when the name is blank. */
  function FilerFileName(f: StoredFile): string {
    if f.name != "" then f.name else f.originalFilename
  }

  /** `_is_css`. */
  predicate IsCss(f: StoredFile) {
    EndsWith(FilerFileName(f), ".css")
  }

  /** `_is_in_clipboard`: the file has no folder. */
  predicate InClipboard(f: StoredFile) {
    f.folders == []
  }

  /** `_construct_logical_folder_path`: the folder names joined as a path. */
  function LogicalFolderPath(f: StoredFile): string
    requires !InClipboard(f)
  {
    JoinAll(f.folders)
  }

  /**
   `_rewrite_file_content`: the new bytes are stored and the size is their
   length; nothing else about the file changes.
   */
  function RewriteFileContent(f: StoredFile, bytes: string): (g: StoredFile)
    ensures g.content == Some(bytes) && g.size == |bytes|
    ensures g.name == f.name && g.originalFilename == f.originalFilename
    ensures g.folders == f.folders && g.url == f.url
  {
    f.(content := Some(bytes), size := |bytes|)
  }

  /** What the stylesheet hook did. */
  datatype HookResult =
    | Skipped
    | Failed(error: HookError)
    | Rewritten(file: StoredFile)

  /** The url `filerfile` gives a path, as the rewrite callback uses it. */
  function Resolver(cat: Catalog): string -> string {
    p => UrlOf(cat, p)
  }

  /** A stylesheet read and decoded: the encoding chosen and the text. */
  datatype Decoded = Decoded(encoding: string, text: string)

  /**
   Reading a stylesheet as both hooks do: the bytes, the encoding they
   select, and the text they decode to under it; each step can raise.
   */
  function ReadText(f: StoredFile, codec: Codec): (r: Result<Decoded, HookError>)
    requires ValidCodec(codec)
    ensures r.Failure? && r.error == ReadFailed <==> f.content.None?
    ensures r.Failure? && r.error.CharsetInvalid? ==>
      f.content.Some? && CssEncoding(f.content.value, FilerFileName(f), codec.known, codec.bomOrder) == Failure(r.error.cause)
    ensures r.Success? <==>
      && f.content.Some?
      && CssEncoding(f.content.value, FilerFileName(f), codec.known, codec.bomOrder).Success?
      && codec.decode(f.content.value, CssEncoding(f.content.value, FilerFileName(f), codec.known, codec.bomOrder).value).Some?
    ensures r.Success? ==>
      && CssEncoding(f.content.value, FilerFileName(f), codec.known, codec.bomOrder) == Success(r.value.encoding)
      && codec.decode(f.content.value, r.value.encoding) == Some(r.value.text)
    ensures f.content.Some? && CssEncoding(f.content.value, FilerFileName(f), codec.known, codec.bomOrder).Failure? ==>
      r == Failure(CharsetInvalid(CssEncoding(f.content.value, FilerFileName(f), codec.known, codec.bomOrder).error))
    ensures f.content.Some? && CssEncoding(f.content.value, FilerFileName(f), codec.known, codec.bomOrder).Success? &&
            codec.decode(f.content.value, CssEncoding(f.content.value, FilerFileName(f), codec.known, codec.bomOrder).value).None? ==>
      r == Failure(DecodeFailed)
  {
    match f.content
    case None => Failure(ReadFailed)
    case Some(bytes) =>
      match CssEncoding(bytes, FilerFileName(f), codec.known, codec.bomOrder)
      case Failure(e) => Failure(CharsetInvalid(e))
      case Success(enc) =>
        match codec.decode(bytes, enc)
        case None => Failure(DecodeFailed)
        case Some(text) => Success(Decoded(enc, text))
  }

  /** The text the stylesheet hook stores for unmarked text: rewritten, then marked. */
  function StoredText(text: string, f: StoredFile, cat: Catalog, hasNetloc: string -> bool): string
    requires !InClipboard(f)
  {
    InsertMarker(RewriteUrls(text, LogicalFolderPath(f), Resolver(cat), hasNetloc))
  }

  /**
   The part of `resolve_resource_urls` after decoding: a marked text is
   left alone; otherwise the rewritten, marked text is encoded back and
   stored, unless a lookup or the encoding raises.
   */
  function RewriteDecoded(f: StoredFile, codec: Codec, cat: Catalog, hasNetloc: string -> bool, d: Decoded)
    : (r: HookResult)
    requires !InClipboard(f)
    ensures r == Skipped <==> IsAlreadyParsed(d.text)
    ensures !IsAlreadyParsed(d.text) && SomeLookupEscapes(cat, ResolvedPaths(TokenActions(d.text, LogicalFolderPath(f), hasNetloc))) ==>
      r == Failed(LookupFailed(MultipleObjectsReturned))
    ensures r.Failed? && r.error != LookupFailed(MultipleObjectsReturned) ==>
      r.error == EncodeFailed && codec.encode(StoredText(d.text, f, cat, hasNetloc), d.encoding).None?
    ensures !IsAlreadyParsed(d.text) && !SomeLookupEscapes(cat, ResolvedPaths(TokenActions(d.text, LogicalFolderPath(f), hasNetloc))) &&
            codec.encode(StoredText(d.text, f, cat, hasNetloc), d.encoding).Some? ==>
      r == Rewritten(RewriteFileContent(f, codec.encode(StoredText(d.text, f, cat, hasNetloc), d.encoding).value))
    ensures r.Rewritten? ==>
      && !IsAlreadyParsed(d.text)
      && r.file.content.Some? && r.file == RewriteFileContent(f, r.file.content.value)
      && codec.encode(StoredText(d.text, f, cat, hasNetloc), d.encoding) == r.file.content
  {
    if IsAlreadyParsed(d.text) then Skipped
    else if SomeLookupEscapes(cat, ResolvedPaths(TokenActions(d.text, LogicalFolderPath(f), hasNetloc))) then
      Failed(LookupFailed(MultipleObjectsReturned))
    else
      match codec.encode(StoredText(d.text, f, cat, hasNetloc), d.encoding)
      case None => Failed(EncodeFailed)
      case Some(out) => Rewritten(RewriteFileContent(f, out))
  }

  /**
   `resolve_resource_urls`. Files that are not stylesheets, and stylesheets
   in the clipboard, are left alone; a stylesheet that cannot be read or
   decoded makes the hook raise; the rest is `RewriteDecoded`.
   */
  function ResolveResourceUrlsHook(f: StoredFile, codec: Codec, cat: Catalog, hasNetloc: string -> bool)
    : (r: HookResult)
    requires ValidCodec(codec)
    ensures !IsCss(f) || InClipboard(f) ==> r == Skipped
    ensures IsCss(f) && !InClipboard(f) ==>
      match ReadText(f, codec)
      case Failure(e) => r == Failed(e)
      case Success(d) => r == RewriteDecoded(f, codec, cat, hasNetloc, d)
  {
    if !IsCss(f) || InClipboard(f) then Skipped
    else match ReadText(f, codec)
      case Failure(e) => Failed(e)
      case Success(d) => RewriteDecoded(f, codec, cat, hasNetloc, d)
  }

  /** Encoding and then decoding with the same codec gives the text back. */
  ghost predicate RoundTrips(codec: Codec) {
    forall t, e :: codec.encode(t, e).Some? ==> codec.decode(codec.encode(t, e).value, e) == Some(t)
  }

  /**
   Saving a rewritten stylesheet again changes nothing: when the codec
   round-trips and the stored bytes still select the same encoding, the
   hook finds the marker and skips the file.
   */
  lemma HookRunsOnce(f: StoredFile, codec: Codec, cat: Catalog, hasNetloc: string -> bool)
    requires ValidCodec(codec) && RoundTrips(codec)
    requires ResolveResourceUrlsHook(f, codec, cat, hasNetloc).Rewritten?
    requires var g := ResolveResourceUrlsHook(f, codec, cat, hasNetloc).file;
             CssEncoding(g.content.value, FilerFileName(g), codec.known, codec.bomOrder) ==
             CssEncoding(f.content.value, FilerFileName(f), codec.known, codec.bomOrder)
    ensures var g := ResolveResourceUrlsHook(f, codec, cat, hasNetloc).file;
            ResolveResourceUrlsHook(g, codec, cat, hasNetloc) == Skipped
  {
    var d := ReadText(f, codec).value;
    var g := ResolveResourceUrlsHook(f, codec, cat, hasNetloc).file;
    RewrittenFileRereads(f, codec, cat, hasNetloc);
    MarkerRoundTrip(RewriteUrls(d.text, LogicalFolderPath(f), Resolver(cat), hasNetloc));
    MarkedTextSkipped(g, codec, cat, hasNetloc, Decoded(d.encoding, StoredText(d.text, f, cat, hasNetloc)));
  }

  /**
   A rewritten stylesheet is still a stylesheet outside the clipboard, and
   its new bytes read back as the marked text the hook produced.
   */
  lemma RewrittenFileRereads(f: StoredFile, codec: Codec, cat: Catalog, hasNetloc: string -> bool)
    requires ValidCodec(codec) && RoundTrips(codec)
    requires ResolveResourceUrlsHook(f, codec, cat, hasNetloc).Rewritten?
    requires var g := ResolveResourceUrlsHook(f, codec, cat, hasNetloc).file;
             CssEncoding(g.content.value, FilerFileName(g), codec.known, codec.bomOrder) ==
             CssEncoding(f.content.value, FilerFileName(f), codec.known, codec.bomOrder)
    ensures ReadText(f, codec).Success? && !InClipboard(f)
    ensures var g := ResolveResourceUrlsHook(f, codec, cat, hasNetloc).file;
            var d := ReadText(f, codec).value;
            && IsCss(g) && !InClipboard(g)
            && ReadText(g, codec) == Success(Decoded(d.encoding, StoredText(d.text, f, cat, hasNetloc)))
  {
    HookRewroteDecoded(f, codec, cat, hasNetloc);
    var d := ReadText(f, codec).value;
    var g := RewriteDecoded(f, codec, cat, hasNetloc, d).file;
    DecodedStoredBytes(f, codec, cat, hasNetloc, d);
    DecodesTo(g, codec, d.encoding, StoredText(d.text, f, cat, hasNetloc));
  }

  /** A rewritten stylesheet was read and decoded, and rewritten from that text. */
  lemma HookRewroteDecoded(f: StoredFile, codec: Codec, cat: Catalog, hasNetloc: string -> bool)
    requires ValidCodec(codec)
    requires ResolveResourceUrlsHook(f, codec, cat, hasNetloc).Rewritten?
    ensures IsCss(f) && !InClipboard(f) && ReadText(f, codec).Success?
    ensures ResolveResourceUrlsHook(f, codec, cat, hasNetloc) ==
      RewriteDecoded(f, codec, cat, hasNetloc, ReadText(f, codec).value)
  {
  }

  /** The rewritten stylesheet keeps its name and folders and holds the encoded, marked text. */
  lemma DecodedStoredBytes(f: StoredFile, codec: Codec, cat: Catalog, hasNetloc: string -> bool, d: Decoded)
    requires !InClipboard(f) && RewriteDecoded(f, codec, cat, hasNetloc, d).Rewritten?
    ensures var g := RewriteDecoded(f, codec, cat, hasNetloc, d).file;
            && g.content.Some? && FilerFileName(g) == FilerFileName(f) && g.folders == f.folders
            && codec.encode(StoredText(d.text, f, cat, hasNetloc), d.encoding) == g.content
  {
  }

  /** A stylesheet whose text already carries the marker is skipped. */
  lemma MarkedTextSkipped(g: StoredFile, codec: Codec, cat: Catalog, hasNetloc: string -> bool, d: Decoded)
    requires ValidCodec(codec) && IsCss(g) && !InClipboard(g)
    requires ReadText(g, codec) == Success(d) && IsAlreadyParsed(d.text)
    ensures ResolveResourceUrlsHook(g, codec, cat, hasNetloc) == Skipped
  {
  }

  /** Bytes that select encoding `e` and decode under it to `text` read as `text`. */
  lemma DecodesTo(g: StoredFile, codec: Codec, e: string, text: string)
    requires ValidCodec(codec) && RoundTrips(codec)
    requires g.content.Some? && codec.encode(text, e) == g.content
    requires CssEncoding(g.content.value, FilerFileName(g), codec.known, codec.bomOrder) == Success(e)
    ensures ReadText(g, codec) == Success(Decoded(e, text))
  {
  }

  /**
   The logical path the reindexer looks for: the resource's folder path
   joined with its name, without normalisation.
   */
  function ReferencePath(res: StoredFile): string
    requires !InClipboard(res)
  {
    Join(LogicalFolderPath(res), FilerFileName(res))
  }

  /**
   For plain folder names and a plain file name the reindexer's path is
   already in the normal form the rewrite engine records, so a recovery
   comment naming the resource is found.
   */
  lemma ReferencePathIsNormal(res: StoredFile)
    requires !InClipboard(res)
    requires forall k :: 0 <= k < |res.folders| ==> PlainName(res.folders[k])
    requires PlainName(FilerFileName(res))
    ensures NormPath(ReferencePath(res)) == ReferencePath(res)
    ensures ReferencePath(res) == JoinWith(res.folders + [FilerFileName(res)], '/')
  {
    var parts := res.folders + [FilerFileName(res)];
    JoinAllOfNames(res.folders);
    assert parts[..|parts| - 1] == res.folders;
    JoinAllOfNames(parts);
    assert JoinAll(parts) == Join(JoinAll(res.folders), FilerFileName(res));
    PlainNamesAreNormal(parts);
  }

  /** What reindexing one stylesheet does. */
  datatype CssStep =
    | Unreadable           // reading raised IOError: the stylesheet is skipped
    | Aborted(error: HookError) // any other exception ends the hook
    | Unchanged            // same bytes: nothing is written
    | Changed(bytes: string)    // new bytes are written and the stylesheet saved

  /** One iteration of the reindexer's loop. */
  function ReindexOne(css: StoredFile, path: string, url: string, codec: Codec): (step: CssStep)
    requires ValidCodec(codec)
    ensures step.Unreadable? <==> css.content.None?
    ensures step.Aborted? <==>
      (ReadText(css, codec).Failure? && css.content.Some?) ||
      (ReadText(css, codec).Success? &&
       codec.encode(ReindexText(ReadText(css, codec).value.text, path, url), ReadText(css, codec).value.encoding).None?)
    ensures step.Unchanged? || step.Changed? ==>
      && ReadText(css, codec).Success?
      && codec.encode(ReindexText(ReadText(css, codec).value.text, path, url), ReadText(css, codec).value.encoding) ==
         Some(if step.Changed? then step.bytes else css.content.value)
    ensures step.Changed? ==> step.bytes != css.content.value
    ensures step.Aborted? ==>
      step.error == (if ReadText(css, codec).Failure? then ReadText(css, codec).error else EncodeFailed)
  {
    match ReadText(css, codec)
    case Failure(ReadFailed) => Unreadable
    case Failure(e) => Aborted(e)
    case Success(Decoded(enc, text)) =>
      match codec.encode(ReindexText(text, path, url), enc)
      case None => Aborted(EncodeFailed)
      case Some(out) => if out == css.content.value then Unchanged else Changed(out)
  }

  /** A stylesheet after its step: rewritten when its bytes changed, otherwise as it was. */
  function Applied(css: StoredFile, step: CssStep): StoredFile {
    if step.Changed? then RewriteFileContent(css, step.bytes) else css
  }

  /** Index of the first stylesheet whose step aborts the loop (`|files|` when none does). */
  function FirstAbort(files: seq<StoredFile>, path: string, url: string, codec: Codec): (stop: nat)
    requires ValidCodec(codec)
    ensures stop <= |files|
    ensures forall j :: 0 <= j < stop ==> !ReindexOne(files[j], path, url, codec).Aborted?
    ensures stop < |files| ==> ReindexOne(files[stop], path, url, codec).Aborted?
  {
    if |files| == 0 then 0
    else if ReindexOne(files[0], path, url, codec).Aborted? then 0
    else
      var rest := FirstAbort(files[1..], path, url, codec);
      assert forall j :: 1 <= j < |files| ==> files[j] == files[1..][j - 1];
      1 + rest
  }

  /** The stylesheets after the loop, and the exception that ended it, if any. */
  datatype ReindexOutcome = ReindexOutcome(files: seq<StoredFile>, error: Option<HookError>)

  /**
   The loop of `update_referencing_css_files`, stylesheet by stylesheet:
   apply each step until one aborts, which ends the loop with its exception.
   */
  function ReindexLoop(files: seq<StoredFile>, path: string, url: string, codec: Codec): (r: ReindexOutcome)
    requires ValidCodec(codec)
    ensures |r.files| == |files|
  {
    if |files| == 0 then ReindexOutcome([], None)
    else
      var step := ReindexOne(files[0], path, url, codec);
      if step.Aborted? then ReindexOutcome(files, Some(step.error))
      else
        var rest := ReindexLoop(files[1..], path, url, codec);
        ReindexOutcome([Applied(files[0], step)] + rest.files, rest.error)
  }

  /**
   What the loop leaves behind: every stylesheet before the first abort
   has its step applied, the ones from there on are untouched, and the
   loop reports an exception exactly when some step aborts, namely that
   step's.
   */
  lemma {:induction false} ReindexLoopOutcome(files: seq<StoredFile>, path: string, url: string, codec: Codec)
    requires ValidCodec(codec)
    ensures var r := ReindexLoop(files, path, url, codec);
            var stop := FirstAbort(files, path, url, codec);
            && (forall j :: 0 <= j < |files| ==>
                  r.files[j] == (if j < stop then Applied(files[j], ReindexOne(files[j], path, url, codec)) else files[j]))
            && (r.error.Some? <==> stop < |files|)
            && (r.error.Some? ==> ReindexOne(files[stop], path, url, codec) == Aborted(r.error.value))
    decreases |files|
  {
    if |files| > 0 && !ReindexOne(files[0], path, url, codec).Aborted? {
      var tail := files[1..];
      ReindexLoopOutcome(tail, path, url, codec);
      LoopContinues(files, path, url, codec);
      var r := ReindexLoop(files, path, url, codec);
      var rest := ReindexLoop(tail, path, url, codec);
      var stop := FirstAbort(files, path, url, codec);
      forall j | 0 <= j < |files|
        ensures r.files[j] == (if j < stop then Applied(files[j], ReindexOne(files[j], path, url, codec)) else files[j])
      {
        if j > 0 {
          assert files[j] == tail[j - 1];
          assert r.files[j] == rest.files[j - 1];
        }
      }
      if r.error.Some? {
        assert files[stop] == tail[stop - 1];
      }
    }
  }

  /** A step that does not abort is applied, and the loop carries on with the rest. */
  lemma LoopContinues(files: seq<StoredFile>, path: string, url: string, codec: Codec)
    requires ValidCodec(codec)
    requires |files| > 0 && !ReindexOne(files[0], path, url, codec).Aborted?
    ensures ReindexLoop(files, path, url, codec).files ==
      [Applied(files[0], ReindexOne(files[0], path, url, codec))] + ReindexLoop(files[1..], path, url, codec).files
    ensures ReindexLoop(files, path, url, codec).error == ReindexLoop(files[1..], path, url, codec).error
    ensures FirstAbort(files, path, url, codec) == 1 + FirstAbort(files[1..], path, url, codec)
  {
  }

  /** The reindexer's queryset filter: `original_filename__endswith='.css'`. */
  predicate OriginalIsCss(f: StoredFile) {
    EndsWith(f.originalFilename, ".css")
  }

  /** The stylesheets the hook visits: `original_filename` ending in `.css`, in queryset order. */
  function CssCandidates(all: seq<StoredFile>): (css: seq<StoredFile>)
    ensures forall k :: 0 <= k < |css| ==> css[k] in all && EndsWith(css[k].originalFilename, ".css")
    ensures forall k :: 0 <= k < |all| && EndsWith(all[k].originalFilename, ".css") ==> all[k] in css
  {
    Filter(all, OriginalIsCss)
  }

  /**
   The candidates keep queryset order and multiplicity: those of a
   concatenation are the candidates of each part in turn, and a single file
   is a candidate exactly when its original filename ends in `.css`.
   */
  lemma CssCandidatesInOrder(xs: seq<StoredFile>, ys: seq<StoredFile>, f: StoredFile)
    ensures CssCandidates(xs + ys) == CssCandidates(xs) + CssCandidates(ys)
    ensures CssCandidates([f]) == if EndsWith(f.originalFilename, ".css") then [f] else []
  {
    FilterAppend(xs, ys, OriginalIsCss);
    FilterSingleton(f, OriginalIsCss);
  }

  /**
   `update_referencing_css_files`: nothing for a stylesheet or a resource
   in the clipboard. Otherwise the candidate stylesheets are visited in
   order, each looking for the resource's logical path and taking its
   current url, until one raises: those before it are brought up to date,
   the rest are untouched, and that exception escapes.
   */
  function UpdateReferencingCssFiles(res: StoredFile, all: seq<StoredFile>, codec: Codec): (r: Option<ReindexOutcome>)
    requires ValidCodec(codec)
    ensures r.None? <==> IsCss(res) || InClipboard(res)
    ensures r.Some? ==>
      var css := CssCandidates(all);
      var stop := FirstAbort(css, ReferencePath(res), res.url, codec);
      && |r.value.files| == |css|
      && (forall j :: 0 <= j < |css| ==>
            r.value.files[j] ==
            (if j < stop then Applied(css[j], ReindexOne(css[j], ReferencePath(res), res.url, codec)) else css[j]))
      && (r.value.error.Some? <==> stop < |css|)
      && (r.value.error.Some? ==> ReindexOne(css[stop], ReferencePath(res), res.url, codec) == Aborted(r.value.error.value))
  {
    if IsCss(res) || InClipboard(res) then None
    else
      var css := CssCandidates(all);
      ReindexLoopOutcome(css, ReferencePath(res), res.url, codec);
      Some(ReindexLoop(css, ReferencePath(res), res.url, codec))
  }

  /** Only stylesheets whose bytes the reindexer changed are written. */
  lemma OnlyChangedFilesWritten(files: seq<StoredFile>, path: string, url: string, codec: Codec, j: nat)
    requires ValidCodec(codec) && j < |files|
    requires ReindexLoop(files, path, url, codec).files[j] != files[j]
    ensures ReindexOne(files[j], path, url, codec).Changed?
    ensures ReindexLoop(files, path, url, codec).files[j].content == Some(ReindexOne(files[j], path, url, codec).bytes)
  {
    ReindexLoopOutcome(files, path, url, codec);
  }

  /** An unreadable stylesheet is skipped and the loop goes on to the next one. */
  lemma UnreadableSkipped(files: seq<StoredFile>, path: string, url: string, codec: Codec, j: nat)
    requires ValidCodec(codec) && j < |files| && files[j].content.None?
    ensures ReindexLoop(files, path, url, codec).files[j] == files[j]
    ensures FirstAbort(files, path, url, codec) != j
  {
    ReindexLoopOutcome(files, path, url, codec);
  }
}
