/**
 The template filters that turn a logical path such as
 `media/images/logo.png` into a stored file: `filerthumbnail` walks the
 folder tree one name at a time from the root and then looks the file up
 in the last folder; `filerfile` gives the file's url (or the empty string);
 `mustache` wraps that url in a mustachify link.

 The database is a catalog of folder and file rows. A Django `.get()`
 either finds no row (`DoesNotExist`, which the filters turn into "no
 file"), exactly one, or several (`MultipleObjectsReturned`, which the
 filters let escape).
 */
module Lookup {
  import opened Wrappers
  import opened Text

  /**
   A stored file field: its storage name (empty when no file is attached),
   its url and its bytes (`None` when reading them from storage raises).
   */
  datatype FieldFile = FieldFile(name: string, url: string, content: Option<string>)

  /** A field file is true in a boolean context exactly when a file is attached. */
  predicate Attached(f: FieldFile) {
    f.name != ""
  }

  datatype FolderRow = FolderRow(id: nat, name: string, parent: Option<nat>)

  /** A file row; `name` is `None` for a NULL name. */
  datatype FileRow = FileRow(name: Option<string>, originalFilename: string, folder: Option<nat>, file: FieldFile)

  datatype Catalog = Catalog(folders: seq<FolderRow>, files: seq<FileRow>)

  /** The outcome of a `.get()`. */
  datatype Lookup<+T> = Absent | Unique(value: T) | Ambiguous

  /** The exception a lookup lets escape. */
  datatype LookupError = MultipleObjectsReturned

  /** The rows a queryset filter keeps, in order. */
  function Filter<T>(xs: seq<T>, keep: T -> bool): (r: seq<T>)
    ensures |r| <= |xs|
    ensures forall k :: 0 <= k < |r| ==> r[k] in xs && keep(r[k])
    ensures forall k :: 0 <= k < |xs| && keep(xs[k]) ==> xs[k] in r
  {
    if |xs| == 0 then []
    else
      var rest := Filter(xs[1..], keep);
      assert forall k :: 0 < k < |xs| ==> xs[k] == xs[1..][k - 1];
      if keep(xs[0]) then [xs[0]] + rest else rest
  }

  /** Filtering a concatenation filters each side and keeps them in order. */
  lemma {:induction false} FilterAppend<T>(xs: seq<T>, ys: seq<T>, keep: T -> bool)
    ensures Filter(xs + ys, keep) == Filter(xs, keep) + Filter(ys, keep)
    decreases |xs|
  {
    if |xs| == 0 {
      assert xs + ys == ys;
    } else {
      assert (xs + ys)[0] == xs[0];
      assert (xs + ys)[1..] == xs[1..] + ys;
      FilterAppend(xs[1..], ys, keep);
    }
  }

  /** A single row is kept exactly when it passes the filter. */
  lemma FilterSingleton<T>(x: T, keep: T -> bool)
    ensures Filter([x], keep) == if keep(x) then [x] else []
  {
    assert [x][1..] == [];
  }

  /** Rows none of which pass are all dropped. */
  lemma FilterNone<T>(xs: seq<T>, keep: T -> bool)
    requires forall k :: 0 <= k < |xs| ==> !keep(xs[k])
    ensures Filter(xs, keep) == []
  {
  }

  /** Row `i` is the only row that passes the filter. */
  ghost predicate OnlyKept<T>(xs: seq<T>, keep: T -> bool, i: int) {
    && 0 <= i < |xs| && keep(xs[i])
    && forall j :: 0 <= j < |xs| && j != i ==> !keep(xs[j])
  }

  /** When only row `i` passes, the filter keeps that row alone. */
  lemma FilterOne<T>(xs: seq<T>, keep: T -> bool, i: int)
    requires OnlyKept(xs, keep, i)
    ensures Filter(xs, keep) == [xs[i]]
  {
    var pre := xs[..i];
    var post := xs[i + 1..];
    assert xs == pre + [xs[i]] + post;
    FilterAppend(pre + [xs[i]], post, keep);
    FilterAppend(pre, [xs[i]], keep);
    assert forall k :: 0 <= k < |pre| ==> pre[k] == xs[k];
    FilterNone(pre, keep);
    assert forall k :: 0 <= k < |post| ==> post[k] == xs[i + 1 + k];
    FilterNone(post, keep);
    FilterSingleton(xs[i], keep);
  }

  /** Two passing rows are both kept. */
  lemma FilterTwo<T>(xs: seq<T>, keep: T -> bool, i: int, j: int)
    requires 0 <= i < j < |xs|
    ensures keep(xs[i]) && keep(xs[j]) ==> |Filter(xs, keep)| >= 2
  {
    assert xs == xs[..j] + xs[j..];
    FilterAppend(xs[..j], xs[j..], keep);
    assert xs[..j][i] == xs[i];
    assert xs[j..][0] == xs[j];
  }

  /** The filter keeps exactly one row exactly when exactly one row passes. */
  lemma FilterExactlyOne<T>(xs: seq<T>, keep: T -> bool)
    ensures |Filter(xs, keep)| == 1 <==> exists i :: OnlyKept(xs, keep, i)
  {
    var r := Filter(xs, keep);
    if |r| == 1 {
      assert r[0] in xs;
      var i :| 0 <= i < |xs| && xs[i] == r[0];
      forall j | 0 <= j < |xs| && j != i
        ensures !keep(xs[j])
      {
        if i < j {
          FilterTwo(xs, keep, i, j);
        } else {
          FilterTwo(xs, keep, j, i);
        }
      }
      assert OnlyKept(xs, keep, i);
    } else if exists i :: OnlyKept(xs, keep, i) {
      var i :| OnlyKept(xs, keep, i);
      FilterOne(xs, keep, i);
    }
  }

  /** `.get()` on a filtered queryset. */
  function Get<T>(rows: seq<T>): (r: Lookup<T>)
    ensures r.Absent? <==> |rows| == 0
    ensures r.Unique? <==> |rows| == 1
    ensures r.Unique? ==> r.value == rows[0]
  {
    if |rows| == 0 then Absent
    else if |rows| == 1 then Unique(rows[0])
    else Ambiguous
  }

  /** The folder query: that name under that parent. */
  function FolderQuery(name: string, parent: Option<nat>): FolderRow -> bool {
    (row: FolderRow) => row.name == name && row.parent == parent
  }

  /**
   `Folder.objects.get(name=name, parent=parent)`, or `parent__isnull=True`
   when `parent` is `None`: the id of the one matching folder, nothing when
   none matches, `MultipleObjectsReturned` when several do.
   */
  function FolderStep(cat: Catalog, name: string, parent: Option<nat>): (r: Lookup<nat>)
    ensures r.Unique? ==> exists row :: row in cat.folders && row.name == name && row.parent == parent && row.id == r.value
    ensures r.Absent? <==> forall row :: row in cat.folders ==> !(row.name == name && row.parent == parent)
    ensures r.Unique? <==> exists i :: OnlyKept(cat.folders, FolderQuery(name, parent), i)
    ensures forall i :: OnlyKept(cat.folders, FolderQuery(name, parent), i) ==> r == Unique(cat.folders[i].id)
  {
    var matches := Filter(cat.folders, FolderQuery(name, parent));
    FilterExactlyOne(cat.folders, FolderQuery(name, parent));
    forall i | OnlyKept(cat.folders, FolderQuery(name, parent), i) {
      FilterOne(cat.folders, FolderQuery(name, parent), i);
    }
    match Get(matches)
    case Absent => Absent
    case Ambiguous =>
      assert FolderQuery(name, parent)(matches[0]);
      Ambiguous
    case Unique(row) =>
      assert matches[0] == row;
      Unique(row.id)
  }

  /**
   `ids` is the chain of folders the names lead to from `parent`: each name
   picks exactly one folder among the children of the previous one.
   */
  ghost predicate IsChain(cat: Catalog, parent: Option<nat>, names: seq<string>, ids: seq<nat>)
    decreases |names|
  {
    && |ids| == |names|
    && (|names| > 0 ==>
          && FolderStep(cat, names[0], parent) == Unique(ids[0])
          && IsChain(cat, Some(ids[0]), names[1..], ids[1..]))
  }

  /** The folder walk of `filerthumbnail`: the ids of the folders visited, stopping at the first failed `.get()`. */
  function WalkFolders(cat: Catalog, parent: Option<nat>, names: seq<string>): (r: Lookup<seq<nat>>)
    ensures r.Unique? ==> IsChain(cat, parent, names, r.value)
    decreases |names|
  {
    if |names| == 0 then Unique([])
    else match FolderStep(cat, names[0], parent)
      case Absent => Absent
      case Ambiguous => Ambiguous
      case Unique(id) =>
        match WalkFolders(cat, Some(id), names[1..])
        case Absent => Absent
        case Ambiguous => Ambiguous
        case Unique(rest) =>
          ChainCons(cat, parent, names, id, rest);
          Unique([id] + rest)
  }

  /** A first step followed by a chain from the folder it found is a chain. */
  lemma ChainCons(cat: Catalog, parent: Option<nat>, names: seq<string>, id: nat, rest: seq<nat>)
    requires |names| > 0 && FolderStep(cat, names[0], parent) == Unique(id)
    requires IsChain(cat, Some(id), names[1..], rest)
    ensures IsChain(cat, parent, names, [id] + rest)
  {
    assert ([id] + rest)[1..] == rest;
  }

  /** Every chain of folders the names describe is the one the walk finds. */
  lemma {:induction false} ChainIsWalked(cat: Catalog, parent: Option<nat>, names: seq<string>, ids: seq<nat>)
    requires IsChain(cat, parent, names, ids)
    ensures WalkFolders(cat, parent, names) == Unique(ids)
    decreases |names|
  {
    if |names| > 0 {
      ChainIsWalked(cat, Some(ids[0]), names[1..], ids[1..]);
      assert ids == [ids[0]] + ids[1..];
    }
  }

  /** The file query of `filerthumbnail`: an unnamed file by original filename, or a file by name. */
  predicate FileMatches(row: FileRow, fileName: string, folder: nat) {
    row.folder == Some(folder) &&
    ((row.originalFilename == fileName && (row.name == Some("") || row.name.None?)) || row.name == Some(fileName))
  }

  function FileQuery(fileName: string, folder: nat): FileRow -> bool {
    (row: FileRow) => FileMatches(row, fileName, folder)
  }

  /**
   The file `.get()` of `filerthumbnail`: the field of the one matching row,
   nothing when none matches, `MultipleObjectsReturned` when several do.
   */
  function FileStep(cat: Catalog, fileName: string, folder: nat): (r: Lookup<FieldFile>)
    ensures r.Unique? ==> exists row :: row in cat.files && FileMatches(row, fileName, folder) && row.file == r.value
    ensures r.Absent? <==> forall row :: row in cat.files ==> !FileMatches(row, fileName, folder)
    ensures r.Unique? <==> exists i :: OnlyKept(cat.files, FileQuery(fileName, folder), i)
    ensures forall i :: OnlyKept(cat.files, FileQuery(fileName, folder), i) ==> r == Unique(cat.files[i].file)
  {
    var matches := Filter(cat.files, FileQuery(fileName, folder));
    FilterExactlyOne(cat.files, FileQuery(fileName, folder));
    forall i | OnlyKept(cat.files, FileQuery(fileName, folder), i) {
      FilterOne(cat.files, FileQuery(fileName, folder), i);
    }
    match Get(matches)
    case Absent => Absent
    case Ambiguous =>
      assert FileQuery(fileName, folder)(matches[0]);
      Ambiguous
    case Unique(row) =>
      assert matches[0] == row;
      Unique(row.file)
  }

  /** How `filerthumbnail` splits a path: leading and trailing slashes stripped, split on `/`. */
  function PathParts(path: string): (parts: seq<string>)
    ensures |parts| >= 1
    ensures JoinWith(parts, '/') == Strip(path, {'/'})
    ensures forall k :: 0 <= k < |parts| ==> '/' !in parts[k]
  {
    Split(Strip(path, {'/'}), '/')
  }

  function FolderNames(path: string): seq<string> {
    var parts := PathParts(path);
    parts[..|parts| - 1]
  }

  function FileName(path: string): string {
    var parts := PathParts(path);
    parts[|parts| - 1]
  }

  /** The guard of `filerthumbnail`: an empty path, no folder part or no file name finds nothing. */
  predicate Rejected(path: string) {
    path == "" || FolderNames(path) == [] || FileName(path) == ""
  }

  /** `filerthumbnail(path)`. */
  function FilerThumbnail(cat: Catalog, path: string): (r: Lookup<FieldFile>)
    ensures Rejected(path) ==> r == Absent
    ensures r.Unique? ==> exists ids ::
      IsChain(cat, None, FolderNames(path), ids) && |ids| >= 1 && FileStep(cat, FileName(path), ids[|ids| - 1]) == r
  {
    if Rejected(path) then Absent
    else
      match WalkFolders(cat, None, FolderNames(path))
      case Absent => Absent
      case Ambiguous => Ambiguous
      case Unique(ids) =>
        assert IsChain(cat, None, FolderNames(path), ids);
        assert |ids| == |FolderNames(path)| >= 1;
        FileStep(cat, FileName(path), ids[|ids| - 1])
  }

  /**
   The converse: a folder chain for the path's folder names determines the
   result, which is the file lookup in the last folder of the chain.
   */
  lemma ThumbnailFollowsChain(cat: Catalog, path: string, ids: seq<nat>)
    requires !Rejected(path)
    requires IsChain(cat, None, FolderNames(path), ids)
    ensures FilerThumbnail(cat, path) == FileStep(cat, FileName(path), ids[|ids| - 1])
  {
    ChainIsWalked(cat, None, FolderNames(path), ids);
  }

  /**
   A walk that follows a chain for the first `j` names and then finds no
   child folder named `names[j]` finds nothing.
   */
  lemma {:induction false} WalkStopsAtMissingFolder(cat: Catalog, parent: Option<nat>, names: seq<string>,
                                                   ids: seq<nat>, j: nat)
    requires j < |names| && IsChain(cat, parent, names[..j], ids)
    requires FolderStep(cat, names[j], if j == 0 then parent else Some(ids[j - 1])).Absent?
    ensures WalkFolders(cat, parent, names) == Absent
    decreases j
  {
    if j > 0 {
      assert names[..j][0] == names[0];
      assert names[..j][1..] == names[1..][..j - 1];
      assert names[1..][j - 1] == names[j];
      assert j - 1 > 0 ==> ids[1..][j - 2] == ids[j - 1];
      WalkStopsAtMissingFolder(cat, Some(ids[0]), names[1..], ids[1..], j - 1);
    }
  }

  /**
   A missing folder is not an error: when the walk reaches a name that no
   child of the current folder carries, the path finds nothing.
   */
  lemma MissingFolderFindsNothing(cat: Catalog, path: string, ids: seq<nat>, j: nat)
    requires !Rejected(path) && j < |FolderNames(path)|
    requires IsChain(cat, None, FolderNames(path)[..j], ids)
    requires forall row :: row in cat.folders ==>
      !(row.name == FolderNames(path)[j] && row.parent == (if j == 0 then None else Some(ids[j - 1])))
    ensures FilerThumbnail(cat, path) == Absent
  {
    WalkStopsAtMissingFolder(cat, None, FolderNames(path), ids, j);
  }

  /** A missing file is not an error: no matching row in the last folder finds nothing. */
  lemma MissingFileFindsNothing(cat: Catalog, path: string, ids: seq<nat>)
    requires !Rejected(path) && IsChain(cat, None, FolderNames(path), ids)
    requires forall row :: row in cat.files ==> !FileMatches(row, FileName(path), ids[|ids| - 1])
    ensures FilerThumbnail(cat, path) == Absent
  {
    ThumbnailFollowsChain(cat, path, ids);
  }

  /** A path neither starting nor ending with a slash is its own stripped form. */
  lemma StripUnslashed(path: string)
    requires path != "" && path[0] != '/' && path[|path| - 1] != '/'
    ensures Strip(path, {'/'}) == path
  {
    StripUnique("", path, "", {'/'});
    assert "" + path + "" == path;
  }

  /** A path `n/f` of two slash-free, non-empty names names the folder `n` and the file `f`. */
  lemma TwoPartPath(n: string, f: string)
    requires n != "" && f != "" && '/' !in n && '/' !in f
    ensures FolderNames(n + "/" + f) == [n] && FileName(n + "/" + f) == f
    ensures !Rejected(n + "/" + f)
  {
    var path := n + "/" + f;
    assert path[0] == n[0] && n[0] in n;
    assert path[|path| - 1] == f[|f| - 1] && f[|f| - 1] in f;
    StripUnslashed(path);
    SplitAtSeparator(n, f, '/');
    SplitNoSeparator(n, '/');
    SplitNoSeparator(f, '/');
    assert PathParts(path) == [n, f];
  }

  /**
   A lookup that succeeds: in a catalog holding one root folder `n` and one
   unnamed file uploaded as `f` inside it, `filerfile("n/f")` is the file's
   url.
   */
  lemma OneFolderOneFileFound(n: string, f: string, id: nat, field: FieldFile)
    requires n != "" && f != "" && '/' !in n && '/' !in f
    ensures var cat := Catalog([FolderRow(id, n, None)], [FileRow(None, f, Some(id), field)]);
            && FilerThumbnail(cat, n + "/" + f) == Unique(field)
            && FilerFile(cat, n + "/" + f) == Success(if Attached(field) then field.url else "")
  {
    var cat := Catalog([FolderRow(id, n, None)], [FileRow(None, f, Some(id), field)]);
    TwoPartPath(n, f);
    OnlyRowFound(cat, n, f, id);
    assert IsChain(cat, None, [n], [id]);
    ThumbnailFollowsChain(cat, n + "/" + f, [id]);
  }

  /** The single folder row and the single file row are each the one match of their query. */
  lemma OnlyRowFound(cat: Catalog, n: string, f: string, id: nat)
    requires |cat.folders| == 1 && cat.folders[0] == FolderRow(id, n, None)
    requires |cat.files| == 1 && cat.files[0].name.None? && cat.files[0].originalFilename == f
    requires cat.files[0].folder == Some(id)
    ensures FolderStep(cat, n, None) == Unique(id)
    ensures FileStep(cat, f, id) == Unique(cat.files[0].file)
  {
    assert OnlyKept(cat.folders, FolderQuery(n, None), 0);
    assert OnlyKept(cat.files, FileQuery(f, id), 0);
  }

  /** The folder names and file name put back together give the path without its outer slashes. */
  lemma PathPartsRoundTrip(path: string)
    ensures JoinWith(FolderNames(path) + [FileName(path)], '/') == Strip(path, {'/'})
  {
    var parts := PathParts(path);
    assert FolderNames(path) + [FileName(path)] == parts;
  }

  /** A path with no slash between its outer slashes names no folder, so it finds nothing in any catalog. */
  lemma NoFolderNoFile(cat: Catalog, path: string)
    requires '/' !in Strip(path, {'/'})
    ensures FilerThumbnail(cat, path) == Absent
  {
    var t := Strip(path, {'/'});
    assert FindFirst(t, 0, {'/'}).None?;
    assert PathParts(path) == [t];
  }

  /**
   Once the path names a folder, the file name is never empty: stripping
   removed every trailing slash, so the `not file_name` test never fires.
   */
  lemma FileNameNonEmpty(path: string)
    requires path != "" && FolderNames(path) != []
    ensures FileName(path) != ""
  {
    var parts := PathParts(path);
    var t := Strip(path, {'/'});
    var j := JoinWith(parts[..|parts| - 1], '/');
    JoinSplitsLast(parts, '/');
    assert t == j + ['/'] + FileName(path);
    assert t[|j|] == '/';
    assert t[|t| - 1] != '/';
  }

  /** `filerfile(path)`: the url of an attached file, otherwise the empty string. */
  function FilerFile(cat: Catalog, path: string): (r: Result<string, LookupError>)
    ensures r.Failure? <==> FilerThumbnail(cat, path).Ambiguous?
    ensures r.Success? && r.value != "" ==>
      FilerThumbnail(cat, path).Unique? && Attached(FilerThumbnail(cat, path).value) &&
      r.value == FilerThumbnail(cat, path).value.url
    ensures FilerThumbnail(cat, path).Absent? ==> r == Success("")
    ensures FilerThumbnail(cat, path).Unique? ==>
      r == Success(if Attached(FilerThumbnail(cat, path).value) then FilerThumbnail(cat, path).value.url else "")
  {
    match FilerThumbnail(cat, path)
    case Absent => Success("")
    case Ambiguous => Failure(MultipleObjectsReturned)
    case Unique(f) => if Attached(f) then Success(f.url) else Success("")
  }

  /** Some path a substitution callback resolves makes `filerfile` raise. */
  predicate SomeLookupEscapes(cat: Catalog, paths: set<string>) {
    exists p :: p in paths && FilerFile(cat, p).Failure?
  }

  const MustachePrefix := "http://mustachify.me/?src="

  /** `mustache(path)`: the mustachify link for the file's url. */
  function Mustache(cat: Catalog, path: string): (r: Result<string, LookupError>)
    ensures r.Failure? <==> FilerFile(cat, path).Failure?
    ensures r.Success? ==> StartsWith(r.value, MustachePrefix) && r.value[|MustachePrefix|..] == FilerFile(cat, path).value
  {
    match FilerFile(cat, path)
    case Success(url) => Success(MustachePrefix + url)
    case Failure(e) => Failure(e)
  }

  /** The url a lookup that did not escape yields, as the rewriters use it. */
  function UrlOf(cat: Catalog, path: string): string {
    match FilerFile(cat, path)
    case Success(url) => url
    case Failure(_) => ""
  }
}
