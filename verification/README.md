# django-filer-tags: stylesheet url resolution, in Dafny

django-filer stores uploaded files under physical urls (such as
`filer_public/2012/11/22/foobar.png`) but authors write stylesheets against
logical paths: the chain of folder names in the filer tree followed by the
file name (`media/images/foobar.png`). This project models how
django-filer-tags bridges the two, and proves properties of the model.

- **Rewrite hook** (`resolve_resource_urls`). Before a stylesheet is saved, the hook reads its bytes. It picks the encoding from a byte-order mark, a leading `@charset "X";` rule, or utf-8, and decodes the bytes. Unless the text already carries the marker `/* Filer urls already resolved */`, it does the following:
  - Every `url(...)` token that is outside a comment and has no network location becomes `url('<physical url>') /* logicalurl('<logical path>') */`.
  - The marker is inserted, after a leading charset rule when there is one.
  - The text is encoded back and stored, and the size is recorded.
- **Reindex hook** (`update_referencing_css_files`). After any other resource is saved, every stylesheet has its recovery comments for that resource's logical path searched. The url in front of each one is replaced by the resource's current url.
- **Template filters.** `filerthumbnail` walks the folder tree name by name and looks the file up in the last folder. `filerfile` gives the file's url or the empty string. `mustache` wraps that url in a mustachify link.
- **View** (`css_preprocessor`). It serves a stored stylesheet with every quoted `url('...')` resolved against the directory of the requested path.

The model has one module per concern:

| Module | Contents |
|---|---|
| `Text` | String helpers in Python's terms: `startswith`, `strip`, `split`, `join`. |
| `Paths` | `os.path.join`, `normpath` and `dirname`, with `basename` to state a property of `dirname`. |
| `Comments`, `UrlTokens` | One matcher per regular expression. Each comes with a declarative reading and an if-and-only-if lemma connecting the two. |
| `Scanner` | `re.finditer` and `re.sub`: leftmost, non-overlapping matching and splicing. |
| `Memo` | The per-run `local_cache` of the two `change_urls` callbacks. |
| `Encoding` | Choosing the encoding. |
| `Marker` | The already-resolved marker. |
| `Rewrite` | The text kernel of the rewrite hook. |
| `Reindex` | The text kernel of the reindex hook. |
| `Lookup` | The template filters, over a catalog of folder and file rows. |
| `View` | The view. |
| `Signals` | Both hooks end to end. File bytes, codecs and storage are data in this module. |

The small predicates `_is_css`, `_get_filer_file_name`, `_is_in_clipboard`
and `_construct_logical_folder_path` are the definitions
`Signals.IsCss`, `Signals.FilerFileName`, `Signals.InClipboard` and
`Signals.LogicalFolderPath`. They appear in the contracts below.

Several definitions model a source construct directly. Their own contracts
give only bounds or shape; the rows named after each state what they mean:

- `Marker.IsAlreadyParsed` is `_is_already_parsed` (filertags/signals.py:119-121). See `Marker.MarkerRoundTrip`, `Marker.PlainContentNotMarked` and `Rewrite.ResolveContent`.
- `Comments.CommentEndAt`, with its helper `Comments.CloseFrom`, is the comment regex (filertags/signals.py:23). See `Comments.CommentEndAtIff`.
- `UrlTokens.UrlEndAt`, `UrlTokens.MarkedUrlEndAt` and `UrlTokens.QuotedUrlEndAt` are the regexes at filertags/signals.py:21, filertags/signals.py:220-222 and filertags/views.py:24. See the three `...Iff` rows.
- `Scanner.Splice` is the splicing half of `re.sub`. See `Scanner.SpliceIdentity`, `Scanner.SplicePrefix` and `Memo.MemoSplice`.
- `Rewrite.RewriteUrls` is the `re.sub` at filertags/signals.py:190-191. See `Rewrite.CommentedTokenKept`, `Rewrite.ExternalTokenKept` and `Rewrite.ResolvedTokenShape`.
- `Reindex.ReindexText` is the `re.sub` at filertags/signals.py:228. See `Reindex.ReindexReplacements`, `Reindex.NoReferenceUnchanged` and `Reindex.RewrittenTokenUpdated`.
- `Signals.ReindexLoop` is the loop at filertags/signals.py:219-238. See `Signals.ReindexLoopOutcome`.
- `View.Substituted` is the substitution at filertags/views.py:23-25. See `View.SubstitutedSpelledOut`, `View.QuotedReferenceReplaced` and `View.NoQuotedReferenceUnchanged`.

Three behaviours of the code are easy to misread. The model follows the code in each:

- **Reindex aborts.** The only handler in the loop is `except IOError` (filertags/signals.py:224-234). Its comment names missing files as the case it covers, stored rows whose file no longer exists. An unknown charset, a decode error or an encode error escapes and ends the loop. `Signals.ReindexLoop` models that.
- **`data:` urls.** One test expects a `data:` url to be left alone (filertags/tests/tests.py:134-144). The code keeps a token only when `urlparse` finds a network location, and a `data:` url has none. So with a faithful `hasNetloc` the token is rewritten.
- **Stylesheet filter.** The reindexer selects stylesheets by `original_filename` (filertags/signals.py:218), not by the name `_is_css` uses.

## Model

| member | source | states |
|---|---|---|
| Text.Split | filertags/templatetags/filertags.py:9 | `str.split` gives at least one part. No part contains the separator. Joining the parts with it gives the string back. |
| Text.SplitJoin | filertags/templatetags/filertags.py:9 | Splitting separator-free parts after joining them gives the parts back. This is the other half of the round trip. |
| Text.Strip | filertags/signals.py:177 | `strip(cs)` is the middle of the string. Everything removed at either end is in `cs`. The result neither starts nor ends with a character of `cs`. |
| Text.StripUnique | filertags/signals.py:177 | Any text between two runs of stripped characters that neither starts nor ends with one is what `strip` returns. |
| Paths.JoinAbsolute | filertags/signals.py:183-184 | `os.path.join` with an absolute reference discards the folder. |
| Paths.JoinRelative | filertags/signals.py:183-184 | A relative reference is appended to a folder that does not end in a slash, with exactly one slash in between. |
| Paths.NormPath | filertags/signals.py:183-184 | `os.path.normpath` always gives a non-empty path in normal form, and `.` for the empty path. |
| Paths.NormPathDropsDot | filertags/signals.py:183-184 | A `.` component is dropped: `p/./q` normalises as `p/q`, for a `p` that is not only slashes. |
| Paths.NormPathDropsEmpty | filertags/signals.py:183-184 | A doubled slash inside a path counts as one: `p//q` normalises as `p/q`, for a `p` that is not only slashes. |
| Paths.NormPathCancelsParent | filertags/signals.py:183-184 | A name other than `.` or `..` followed by `..` cancels out: `p/n/../q` normalises as `p/q`. |
| Paths.NormPathCancelsLeadingParent | filertags/views.py:17 | The same at the start of a relative path: `n/../q` normalises as `q`. |
| Paths.NormPathDropsRootParent | filertags/signals.py:183-184 | `..` directly under the root is dropped: `/../q` normalises as `/q`, for a relative `q`. |
| Paths.RootParentIsRoot | filertags/signals.py:183-184 | The root has no parent: `normpath('/..')` is `/`. |
| Paths.NormPathNameThenParentIsDot | filertags/views.py:17 | A name other than `.` or `..` followed by `..` leaves nothing, which `normpath` writes as `.`. |
| Paths.ParentOfNameCollapses | filertags/views.py:17 | For instance, `normpath('a/../b')` is `b`. |
| Paths.NormPathKeepsNormal | filertags/signals.py:183-184 | `normpath` returns a path already in normal form unchanged. |
| Paths.NormPathIdempotent | filertags/signals.py:183-184 | `normpath(normpath(p)) == normpath(p)`. |
| Paths.NormPathKeepsAbsoluteness | filertags/signals.py:183-184 | The normalised path is absolute exactly when the input was. |
| Paths.JoinAllOfNames | filertags/signals.py:31-32 | Joining non-empty, slash-free folder names with `os.path.join(*names)` gives the names separated by single slashes. |
| Paths.PlainNamesAreNormal | filertags/signals.py:214-217 | Names other than `.` and `..`, joined by single slashes, form a path that `normpath` leaves alone. |
| Paths.DirName | filertags/views.py:9 | `dirname` is a prefix that stops at or before the last slash, and only slashes lie between its end and that slash. It is empty exactly when the path has no slash. It ends in a non-slash character unless it is all slashes, and a head made only of slashes is kept whole. |
| Paths.DirNameOfChild | filertags/views.py:9 | The dirname of `d/name` is `d`, for a folder `d` not ending in a slash and a slash-free name. |
| Paths.DirNameOfPlainName | filertags/views.py:9 | A path without a slash has an empty dirname. |
| Paths.DirNameJoinBasename | filertags/views.py:9 | For a path without doubled slashes, joining `dirname` and `basename` rebuilds the path. |
| Comments.CommentEndAtIff | filertags/signals.py:23 | The comment matcher succeeds at `p`, ending at `e`, exactly when `s[p..e]` is a comment. That is slash-star, then no newline and no star-slash, then star-slash. |
| Comments.CommentStaysOnOneLine | filertags/signals.py:23 | Without DOTALL, a matched comment never contains a newline. |
| UrlTokens.UrlEndAtIff | filertags/signals.py:21 | The url-token matcher succeeds exactly on `url(` at a word boundary, followed by text free of `)`, then `)`. |
| UrlTokens.MarkedUrlEndAtIff | filertags/signals.py:220-222 | The reindexer's regex matches exactly a url token followed by one space and the recovery comment. |
| UrlTokens.QuotedUrlEndAtIff | filertags/views.py:24 | The view's regex matches exactly `url(`, a quote, a non-empty quote-free reference, a quote, `)`. |
| UrlTokens.MismatchedQuotesMatch | filertags/views.py:24 | The two quotes are chosen independently, so `url('x")` matches. |
| UrlTokens.InnerQuoteBlocksMatch | filertags/views.py:24 | A quote inside the reference prevents the match: `url('a'b')` does not match. |
| Scanner.Scan | filertags/signals.py:35-36 | `finditer` gives matches that are ordered, disjoint, and each a real match. No match starts at an offset that none of them covers. |
| Scanner.ScanNoMatch | filertags/signals.py:35-36 | Where the pattern matches nowhere, the scan finds nothing. |
| Scanner.ScanSkips | filertags/signals.py:228 | Offsets where the pattern matches nowhere are passed over: the scan resumes at the next candidate. |
| Scanner.SpliceIdentity | filertags/signals.py:190-191 | `re.sub` changes only the matched spans: replacing each match by its own text gives the input back. |
| Scanner.SplicePrefix | filertags/signals.py:228 | Text before the first match is copied unchanged. |
| Memo.CachedEmit | filertags/signals.py:185-188 | A `local_cache` lookup always answers the replacement for the path. It computes the replacement only on a miss, and the cache stays exact. |
| Memo.MemoSplice | filertags/signals.py:169-191 | `re.sub` with the memoizing callback gives the output of an uncached callback. The replacement is computed exactly once per distinct path that needs it. |
| Encoding.FirstBom | filertags/signals.py:51-54 | The loop returns the codec of an entry, in iteration order, whose mark begins the content. It returns nothing exactly when no mark does. |
| Encoding.EncodingFromBom | filertags/signals.py:43-54 | A codec is returned only for a recognised mark that begins the content. Nothing is returned exactly when no mark does. This holds for every dict iteration order. |
| Encoding.Utf8BomWins | filertags/signals.py:43-54 | A UTF-8 mark selects `utf-8-sig` in every iteration order. |
| Encoding.Utf32LeDependsOnOrder | filertags/signals.py:44-53 | The UTF-32LE mark starts with the UTF-16LE mark, so either `utf-16` or `utf-32` can be chosen, depending on the dict's order. |
| Encoding.CharsetEndIff | filertags/signals.py:66 | `re.match('@charset "([^"]*)";')` succeeds, ending at `e`, exactly when the text opens with a charset rule ending there. |
| Encoding.CharsetRuleRoundTrip | filertags/signals.py:66-68 | A rule written for a quote-free name is matched, and group 1 is that name. |
| Encoding.CssEncoding | filertags/signals.py:57-81 | The encoding rules, in order: a mark decides; otherwise a leading rule with a known name decides; an unknown name raises `ValueError` naming the stylesheet and charset; otherwise utf-8. |
| Encoding.DeclaredCharsetChosen | filertags/signals.py:62-78 | A stylesheet opening with `@charset "X";` for a known `X` is read as `X`, because no mark begins with `@`. |
| Marker.InsertMarker | filertags/signals.py:107-116 | Without a leading charset rule, the result is the marker, a newline and the content. With one, the rule stays first, the marker follows it, and the rest is unchanged. |
| Marker.MarkerRoundTrip | filertags/signals.py:107-121 | `_is_already_parsed` recognises every insertion of the marker. |
| Marker.PlainContentNotMarked | filertags/signals.py:119-121 | Content that opens with neither a charset rule nor the marker is not marked. |
| Rewrite.CommentedRegions | filertags/signals.py:35-36 | The regions are ordered, disjoint comments. Every offset where a comment match starts lies in one. |
| Rewrite.InComment | filertags/signals.py:172-175 | A token is commented exactly when its start or end lies strictly inside some region. |
| Rewrite.UrlTokenSpans | filertags/signals.py:21 | The tokens `re.sub` visits are ordered, disjoint url tokens, and no token start is skipped. |
| Rewrite.ResolveContent | filertags/signals.py:161-165 | The kernel does nothing exactly for already-marked text. Otherwise its result is itself recognised as marked. |
| Rewrite.RewriteIdempotent | filertags/signals.py:161-191 | Rewriting a rewritten stylesheet changes nothing. |
| Rewrite.ResolveResourceUrls | filertags/signals.py:167-191 | With the per-run cache, the result is the kernel's. The lookup runs once for each distinct logical path of a rewritten token, and for no other path. |
| Rewrite.CommentedTokenKept | filertags/signals.py:172-175 | A token whose start or end is inside a comment is emitted verbatim. |
| Rewrite.ExternalTokenKept | filertags/signals.py:178-181 | A token whose reference has a network location is emitted verbatim. |
| Rewrite.ResolvedTokenShape | filertags/signals.py:182-188 | Any other token becomes `url('F(p)') /* logicalurl('p') */`, where `p` is the normalised join of the folder path and the stripped reference. |
| Rewrite.QuotingForms | filertags/signals.py:177 | Single-quoted, double-quoted and bare references, padded with spaces, strip to the same reference. |
| Rewrite.SameReferenceSameReplacement | filertags/signals.py:177-188 | Two uncommented tokens with the same stripped reference get the same replacement. |
| Rewrite.AbsoluteReferenceIgnoresFolder | filertags/signals.py:182-184 | An absolute reference resolves to the same logical path whatever the stylesheet's folder. |
| Rewrite.NothingToResolve | filertags/signals.py:190-191 | When every token is kept, only the marker is added. Without a charset rule the result is the marker, a newline and the original text. |
| Rewrite.CommentedContentOnlyMarked | filertags/tests/tests.py:121-132 | When every token lies in a comment, the stylesheet gains only the marker. |
| Lookup.Filter | filertags/templatetags/filertags.py:19-26 | A queryset filter keeps only rows that pass the query, and keeps every row that does. |
| Lookup.FilterAppend | filertags/signals.py:218-219 | Filtering keeps queryset order and multiplicity: filtering a concatenation filters each side in turn. |
| Lookup.FilterExactlyOne | filertags/templatetags/filertags.py:19-26 | The filter keeps exactly one row exactly when one row alone passes the query. |
| Lookup.Get | filertags/templatetags/filertags.py:19-26 | `.get()` raises `DoesNotExist` exactly on no rows, returns the row when there is one, and is ambiguous otherwise. |
| Lookup.FolderStep | filertags/templatetags/filertags.py:18-21 | A successful folder `.get()` returns the id of a folder with that name under that parent. It finds nothing (`DoesNotExist`) exactly when no folder has that name and parent. It finds a folder exactly when one row alone matches, and then it is that row's id. |
| Lookup.WalkFolders | filertags/templatetags/filertags.py:15-22 | A successful walk returns a chain: each name picks exactly one child of the previous folder. |
| Lookup.ChainIsWalked | filertags/templatetags/filertags.py:15-22 | Every such chain is the one the walk returns. |
| Lookup.FileStep | filertags/templatetags/filertags.py:23-26 | A successful file `.get()` returns the field of a row in that folder. The row is unnamed with that original filename, or has that name. It finds nothing exactly when no row matches the query. It finds a file exactly when one row alone matches, and then it is that row's field. |
| Lookup.PathParts | filertags/templatetags/filertags.py:9 | The path, stripped of outer slashes, splits into at least one slash-free part, and the parts join back to it. |
| Lookup.PathPartsRoundTrip | filertags/templatetags/filertags.py:9-11 | The folder names and the file name join back to the stripped path. |
| Lookup.FilerThumbnail | filertags/templatetags/filertags.py:8-28 | An empty path, a path without folder part or one without file name finds nothing. Any file found is the file step in the last folder of a chain for the folder names. |
| Lookup.ThumbnailFollowsChain | filertags/templatetags/filertags.py:15-26 | Conversely, a chain for the folder names determines the result: the file step in its last folder. |
| Lookup.MissingFolderFindsNothing | filertags/templatetags/filertags.py:15-28 | A missing folder is not an error. When the walk follows the first `j` names and no child of the current folder carries the next name, the path finds nothing rather than raising. |
| Lookup.MissingFileFindsNothing | filertags/templatetags/filertags.py:23-28 | A missing file is not an error. When the folders are found but no file row in the last one matches, the path finds nothing. |
| Lookup.NoFolderNoFile | filertags/templatetags/filertags.py:9-13 | A path with no inner slash finds nothing in any catalog. |
| Lookup.FileNameNonEmpty | filertags/templatetags/filertags.py:9-12 | Once a non-empty path names a folder, the file name is never empty. |
| Lookup.OneFolderOneFileFound | filertags/templatetags/filertags.py:8-35 | A lookup that succeeds: with one root folder `n` holding one unnamed file uploaded as `f`, `filerthumbnail('n/f')` finds that file and `filerfile` gives its url. |
| Lookup.FilerFile | filertags/templatetags/filertags.py:31-35 | The filter raises exactly when the lookup is ambiguous. A file found by the lookup gives its url when a file is attached and `''` otherwise. No file gives `''`. |
| Lookup.Mustache | filertags/templatetags/filertags.py:37-39 | The answer is the mustachify prefix followed by `filerfile`'s answer. It raises exactly when `filerfile` does. |
| View.QuotedSpans | filertags/views.py:23-24 | The matches `re.sub` visits are ordered, disjoint quoted references, and none is skipped. |
| View.CssPreprocessor | filertags/views.py:8-25 | 404 exactly when the lookup is falsy and the path ends in `.css`. A falsy lookup for any other path, or an ambiguous one, is a 500. A body is served exactly when the file is attached, storage can read it, and no referenced path makes `filerfile` raise. |
| View.ServedBody | filertags/views.py:9-25 | In that case the body is the stored text after substitution, with references resolved from the directory of the requested path. |
| View.SubstitutedSpelledOut | filertags/views.py:15-24 | The substitution replaces each quoted reference by `url('U')`, where `U` is the url of the file at the normalised join of the directory and the reference. The text between references is copied. |
| View.CssPreprocessorCached | filertags/views.py:13-20 | With the per-request cache, the response is the same. `filerfile` runs once for each distinct referenced path. |
| View.QuotedReferenceReplaced | filertags/views.py:15-19 | Each quoted reference becomes `url('U')`, where `U` is the url of the file at its normalised path. |
| View.NoQuotedReferenceUnchanged | filertags/views.py:23-25 | A stylesheet without quoted references is served unchanged. |
| View.ReferenceResolvedFromRequestPath | filertags/views.py:9-17 | For a request path `d/name`, a relative reference resolves to `normpath(d + '/' + reference)` and an absolute one to `normpath(reference)`. |
| View.TopLevelReferenceResolvedAlone | filertags/views.py:9-17 | For a request path without a slash, the directory is empty and each reference resolves to `normpath(reference)`. |
| Reindex.ReferencingSpans | filertags/signals.py:220-222 | The matches are ordered, disjoint url tokens followed by the resource's recovery comment, and none is skipped. |
| Reindex.ReindexReplacements | filertags/signals.py:219-223 | Every match is replaced by the same text, `url('U') ` followed by the recovery comment. That text is the token the rewrite hook writes for the same path and the new url (`_RESOURCE_URL_TEMPLATE`, filertags/signals.py:20). |
| Reindex.MatchIsRecordedReference | filertags/signals.py:220-222 | A match is a url token, one space, and the recovery comment of the path, ending where that comment ends. |
| Reindex.NoReferenceUnchanged | filertags/signals.py:228 | A stylesheet with no recovery comment for the path is left unchanged. |
| Reindex.TokenMatchesAt | filertags/signals.py:220-222 | A token the rewrite hook produced for a url without `)`, after a word boundary, is one match of the reindexer's regex, recovery comment included. |
| Reindex.RewrittenTokenUpdated | filertags/signals.py:220-228 | Such a token inside a stylesheet becomes the token for the new url, and the text around it is kept. This assumes no other `url(` occurs in the text. |
| Reindex.ReindexKeepsMarker | filertags/signals.py:228-238 | A stylesheet that opens with the marker keeps it, so the save that follows finds it already resolved. |
| Reindex.ReindexKeepsMarkerAfterCharset | filertags/signals.py:228-238 | A stylesheet whose marker follows its leading `@charset` rule keeps the rule, its name and the marker, so the save that follows finds it already resolved. This holds when the declared name contains no `url(`. |
| Signals.RewriteFileContent | filertags/signals.py:84-96 | The new bytes are stored and the size is their length. The name, folders and url are unchanged. |
| Signals.ReadText | filertags/signals.py:158-160 | Reading fails with the read error exactly when the bytes are unreadable. An unknown declared charset fails with the encoding step's `ValueError`, and bytes that do not decode fail with the decode error. Success means the bytes select an encoding and decode under it, and the text is that decoding. |
| Signals.RewriteDecoded | filertags/signals.py:161-193 | The hook skips exactly the already-marked text. Otherwise an escaping lookup raises `MultipleObjectsReturned`, a failed encode raises the encode error, and in every other case the file is rewritten. A rewritten file holds the encoding of the rewritten, marked text, and nothing else about it changes. |
| Signals.ResolveResourceUrlsHook | filertags/signals.py:153-193 | Non-stylesheets and clipboard files are skipped. Read, charset and decode errors escape. Otherwise the decoded text is rewritten. |
| Signals.HookRunsOnce | filertags/signals.py:153-193 | Saving a rewritten stylesheet again is a no-op, for a codec that round-trips and an unchanged encoding choice. |
| Signals.RewrittenFileRereads | filertags/signals.py:158-193 | A rewritten stylesheet stays a stylesheet outside the clipboard. Its new bytes read back as the marked text the hook produced. |
| Signals.ReferencePathIsNormal | filertags/signals.py:214-217 | For plain names, the reindexer's unnormalised path is the normal form that the rewrite hook records in recovery comments. |
| Signals.ReindexOne | filertags/signals.py:224-238 | An unreadable stylesheet is skipped. Any other read, charset, decode or encode error aborts with that error: the read's when reading fails, the encode error otherwise. A write happens only when the encoded bytes differ. |
| Signals.FirstAbort | filertags/signals.py:219-234 | The index of the first stylesheet whose step raises past the `except IOError`. |
| Signals.ReindexLoopOutcome | filertags/signals.py:219-238 | Stylesheets before the first abort have their step applied, and later ones are untouched. An exception escapes exactly when some step aborts, and it is that step's. |
| Signals.CssCandidates | filertags/signals.py:218 | The stylesheets visited are exactly those whose `original_filename` ends in `.css`. |
| Signals.CssCandidatesInOrder | filertags/signals.py:218-219 | They keep queryset order and multiplicity. The candidates of a concatenation are those of each part in turn, and a single file is a candidate exactly when its original filename ends in `.css`. |
| Signals.UpdateReferencingCssFiles | filertags/signals.py:209-238 | Nothing happens exactly for a stylesheet or a clipboard resource. Otherwise the candidates are visited in queryset order, looking for the resource's logical path with its current url. Those before the first aborting step are brought up to date and the rest are untouched. An exception escapes exactly when a step aborts, and it is that step's. |
| Signals.OnlyChangedFilesWritten | filertags/signals.py:236-238 | A stylesheet that the loop altered had its bytes changed, and now holds the new bytes. |
| Signals.UnreadableSkipped | filertags/signals.py:230-234 | An unreadable stylesheet is left as it was and never ends the loop. |

## Left out

- Signal wiring (filertags/signals.py:250-255) is not modelled. The two hooks are plain functions; which model class triggers them is Django configuration.
- `clear_urls_cache` (filertags/signals.py:241-247) is left out. It depends on `get_filerfile_cache_key` and the Django cache. `get_filerfile_cache_key` is imported from the template tags module but is not defined in the version of that file modelled here, so it is not part of this model.
- `filercss` and the template-library registration (filertags/templatetags/filertags.py:41-49) are left out. They are a url reversal and Django plumbing.
- Storage in `_rewrite_file_content` is not modelled: the in-memory branch, `storage.save` and renaming, and the sha1 digest. `Signals.RewriteFileContent` keeps only the stored bytes and `_file_size`. Hashing is not modelled.
- File storage in the view is not modelled. Whether `f.read()` (filertags/views.py:24) can read the stored bytes is recorded in the catalog as `Lookup.FieldFile.content`. `None` means the read raises, and the view then answers 500.
- `urlparse` is not modelled. Whether a reference has a network location is the parameter `hasNetloc`.
- `codecs` is not modelled. Codec lookup, decoding and encoding are the functions of `Signals.Codec`. Python's codec tables are not modelled.
- Python 2 byte strings and unicode strings are both `string`, one character per byte or code point.
- Signals.ValidCodec: the byte-order-mark table is a dict whose iteration order Python does not fix. The model takes the order as a parameter and requires only that it is a permutation of the table.
- Reindex.RewrittenTokenUpdated: a url containing `)` is not covered. The source regex's `[^\)]*` stops at the first `)`, so such a token never matches and is never updated. The lemma requires a `)`-free url for that reason. It also assumes that no other `url(` occurs in the text; the general case follows from `Scanner.Scan` but is not stated as a lemma.
- Reindex.ReindexText: the replacement string is passed to `re.sub` as a template. Backslash escapes in a resource url or in the logical path of the recovery comment would be processed there; the model inserts both literally.
- Reindex.ReindexText: the regex built from the logical-url snippet is modelled as a literal match of the snippet. That is what `re.escape` is meant to produce.
- Rewrite.ResolveResourceUrls: when a lookup raises `MultipleObjectsReturned`, the source stops partway through `re.sub`. The model checks up front whether any path's lookup raises. `Signals.RewriteDecoded` and `View.CssPreprocessor` do the same. The outcome is the same exception in both.
- Lookup.WalkFolders: `if not current_parent` is modelled as a test for no parent yet. A Folder instance is always true in a boolean context.
- The `css.save()` at filertags/signals.py:238 re-enters the rewrite hook. The model covers that re-entry only through `Reindex.ReindexKeepsMarker` and `Reindex.ReindexKeepsMarkerAfterCharset`, which prove that the saved stylesheet is still marked, so the hook skips it. They cover a stylesheet that opens with the marker, or one whose marker follows a leading charset rule.
- Reindex.ReindexKeepsMarkerAfterCharset: a charset name that itself contains `url(` is not covered. A recorded reference written inside the name would be rewritten there too, moving the marker.
- Concurrency, the database transaction around a save, and logging are not modelled.
