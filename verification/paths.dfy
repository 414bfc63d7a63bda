/**
 The POSIX path functions the rewriting code calls, `os.path.join`,
 `os.path.normpath` and `os.path.dirname`, following CPython 2.7's
 `posixpath` module; `os.path.basename` serves to state what `dirname`
 keeps.
 */
module Paths {
  import opened Wrappers
  import opened Text

  /** `os.path.join(a, b)`: an absolute `b` discards `a`. */
  function Join(a: string, b: string): (r: string)
  {
    if StartsWith(b, "/") then b
    else if a == "" || EndsWith(a, "/") then a + b
    else a + "/" + b
  }

  /** `os.path.join(*parts)`: a left fold of the two-argument join. */
  function JoinAll(parts: seq<string>): string
    requires |parts| >= 1
  {
    if |parts| == 1 then parts[0]
    else Join(JoinAll(parts[..|parts| - 1]), parts[|parts| - 1])
  }

  /** An absolute reference is joined to any folder as itself. */
  lemma JoinAbsolute(folder: string, reference: string)
    requires StartsWith(reference, "/")
    ensures Join(folder, reference) == reference
  {
  }

  /** A relative reference is appended to a folder with exactly one separator between them. */
  lemma JoinRelative(folder: string, reference: string)
    requires !StartsWith(reference, "/") && folder != "" && !EndsWith(folder, "/")
    ensures Join(folder, reference) == folder + "/" + reference
  {
  }

  function Slashes(k: nat): (r: string)
    ensures |r| == k && forall i :: 0 <= i < k ==> r[i] == '/'
  {
    seq(k, _ => '/')
  }

  /**
   How many leading slashes normpath keeps: none for a relative path,
   exactly two when the path starts with two but not three, one otherwise.
   */
  function InitialSlashes(path: string): (k: nat)
    ensures k <= 2 && k <= |path|
    ensures k > 0 <==> StartsWith(path, "/")
  {
    if !StartsWith(path, "/") then 0
    else if StartsWith(path, "//") && !StartsWith(path, "///") then 2
    else 1
  }

  /** One step of normpath's component loop. */
  function Step(acc: seq<string>, comp: string, absolute: bool): seq<string>
  {
    if comp == "" || comp == "." then acc
    else if comp != ".." || (!absolute && acc == []) || (acc != [] && acc[|acc| - 1] == "..") then acc + [comp]
    else if acc != [] then acc[..|acc| - 1]
    else acc
  }

  /** normpath's component loop over `comps`, starting from `acc`. */
  function Collapse(acc: seq<string>, comps: seq<string>, absolute: bool): seq<string>
    decreases |comps|
  {
    if |comps| == 0 then acc
    else Collapse(Step(acc, comps[0], absolute), comps[1..], absolute)
  }

  /**
   Components of a normal path: none empty, none `.`, none holding a slash;
   `..` only as a leading run, and never in an absolute path.
   */
  ghost predicate NormalComponents(comps: seq<string>, absolute: bool) {
    && (forall k :: 0 <= k < |comps| ==> comps[k] != "" && comps[k] != "." && '/' !in comps[k])
    && (forall i, j :: 0 <= i < j < |comps| && comps[j] == ".." ==> comps[i] == "..")
    && (absolute ==> forall k :: 0 <= k < |comps| ==> comps[k] != "..")
  }

  /**
   A path normpath leaves alone: `.`, or its kept leading slashes followed
   by slash-separated normal components (a bare run of slashes when there
   are none).
   */
  ghost predicate IsNormalPath(r: string) {
    r == "." ||
    var k := InitialSlashes(r);
    && (r[k..] == "" ==> k > 0)
    && (r[k..] != "" ==> NormalComponents(Split(r[k..], '/'), k > 0))
  }

  /** `os.path.normpath(path)`. */
  function NormPath(path: string): (r: string)
    ensures IsNormalPath(r)
    ensures r != ""
    ensures path == "" ==> r == "."
  {
    if path == "" then "."
    else
      var k := InitialSlashes(path);
      var comps := Collapse([], Split(path, '/'), k > 0);
      CollapseNormal([], Split(path, '/'), k > 0);
      var p := Slashes(k) + JoinWith(comps, '/');
      if p == "" then "." else
      RenderedIsNormal(k, comps);
      p
  }

  lemma {:induction false} CollapseNormal(acc: seq<string>, comps: seq<string>, absolute: bool)
    requires NormalComponents(acc, absolute)
    requires forall k :: 0 <= k < |comps| ==> '/' !in comps[k]
    ensures NormalComponents(Collapse(acc, comps, absolute), absolute)
    decreases |comps|
  {
    if |comps| > 0 {
      var next := Step(acc, comps[0], absolute);
      if comps[0] == "" || comps[0] == "." {
      } else if comps[0] != ".." || (!absolute && acc == []) || (acc != [] && acc[|acc| - 1] == "..") {
        assert next == acc + [comps[0]];
      } else if acc != [] {
        assert next == acc[..|acc| - 1];
      }
      CollapseNormal(next, comps[1..], absolute);
    }
  }

  /** Leading slashes followed by normal components render to a normal path. */
  lemma RenderedIsNormal(k: nat, comps: seq<string>)
    requires k <= 2 && NormalComponents(comps, k > 0)
    requires Slashes(k) + JoinWith(comps, '/') != ""
    ensures IsNormalPath(Slashes(k) + JoinWith(comps, '/'))
  {
    var j := JoinWith(comps, '/');
    var p := Slashes(k) + j;
    JoinEmpty(comps, '/');
    if comps != [] {
      JoinStartsWithFirst(comps, '/');
      assert j[0] == comps[0][0];
      assert j[0] != '/';
      SplitJoin(comps, '/');
    }
    assert p[k..] == j;
    if k == 0 {
      assert !StartsWith(p, "/");
    } else if k == 1 {
      assert StartsWith(p, "/");
      assert !StartsWith(p, "//");
    } else {
      assert StartsWith(p, "//");
      assert !StartsWith(p, "///");
    }
    assert InitialSlashes(p) == k;
  }

  /** Components that are already normal pass through normpath's loop unchanged. */
  lemma {:induction false} CollapseKeepsNormal(acc: seq<string>, comps: seq<string>, absolute: bool)
    requires NormalComponents(acc + comps, absolute)
    ensures Collapse(acc, comps, absolute) == acc + comps
    decreases |comps|
  {
    if |comps| > 0 {
      var c := comps[0];
      assert (acc + comps)[|acc|] == c;
      if c == ".." && acc != [] {
        assert (acc + comps)[|acc| - 1] == acc[|acc| - 1];
      }
      assert Step(acc, c, absolute) == acc + [c];
      assert (acc + [c]) + comps[1..] == acc + comps;
      CollapseKeepsNormal(acc + [c], comps[1..], absolute);
    }
  }

  /** A leading slash only splits off an empty component, which the loop skips. */
  lemma OneSlashSkipped(rest: string, absolute: bool)
    ensures Collapse([], Split(['/'] + rest, '/'), absolute) == Collapse([], Split(rest, '/'), absolute)
  {
    var comps := Split(rest, '/');
    SplitLeadingSeparator(rest, '/');
    assert Split(['/'] + rest, '/') == [""] + comps;
    assert ([""] + comps)[1..] == comps;
  }

  /** The leading slashes normpath keeps do not reach its component loop. */
  lemma KeptSlashesSkipped(p: string)
    ensures var k := InitialSlashes(p);
            Collapse([], Split(p, '/'), k > 0) == Collapse([], Split(p[k..], '/'), k > 0)
  {
    var k := InitialSlashes(p);
    var rest := p[k..];
    if k == 1 {
      assert p == ['/'] + rest;
      OneSlashSkipped(rest, true);
    } else if k == 2 {
      assert p == ['/'] + (['/'] + rest);
      OneSlashSkipped(['/'] + rest, true);
      OneSlashSkipped(rest, true);
    } else {
      assert p == rest;
    }
  }

  /** normpath returns a normal path unchanged. */
  lemma NormPathKeepsNormal(p: string)
    requires IsNormalPath(p)
    ensures NormPath(p) == p
  {
    if p == "." {
      assert FindFirst(p, 0, {'/'}).None?;
      assert Split(p, '/') == ["."];
      assert Collapse([], ["."], false) == [];
    } else {
      var k := InitialSlashes(p);
      KeptSlashesPrefix(p);
      if p[k..] == "" {
        SlashesKept(p);
      } else {
        ComponentsKept(p);
      }
    }
  }

  /** normpath on a non-empty path: kept slashes, then the collapsed components. */
  lemma NormPathUnfold(p: string)
    requires p != ""
    ensures var k := InitialSlashes(p);
            var q := Slashes(k) + JoinWith(Collapse([], Split(p[k..], '/'), k > 0), '/');
            NormPath(p) == if q == "" then "." else q
  {
    KeptSlashesSkipped(p);
  }

  /** A bare run of kept slashes is its own normal form. */
  lemma SlashesKept(p: string)
    requires p != "" && p == Slashes(InitialSlashes(p)) && InitialSlashes(p) > 0
    ensures NormPath(p) == p
  {
    var k := InitialSlashes(p);
    NormPathUnfold(p);
    assert p[k..] == "";
    assert FindFirst(p[k..], 0, {'/'}).None?;
    assert Split(p[k..], '/') == [""];
    assert Collapse([], [""], k > 0) == [];
  }

  /** Kept slashes followed by normal components are their own normal form. */
  lemma ComponentsKept(p: string)
    requires p != "" && p[InitialSlashes(p)..] != ""
    requires NormalComponents(Split(p[InitialSlashes(p)..], '/'), InitialSlashes(p) > 0)
    ensures NormPath(p) == p
  {
    var k := InitialSlashes(p);
    var comps := Split(p[k..], '/');
    NormPathUnfold(p);
    CollapseKeepsNormal([], comps, k > 0);
    assert [] + comps == comps;
    var q := Slashes(k) + JoinWith(comps, '/');
    assert JoinWith(comps, '/') == p[k..];
    KeptSlashesPrefix(p);
  }

  /** The slashes normpath keeps are the path's own first characters. */
  lemma KeptSlashesPrefix(p: string)
    ensures p == Slashes(InitialSlashes(p)) + p[InitialSlashes(p)..]
  {
    var k := InitialSlashes(p);
    if k == 1 {
      assert p[..1] == "/";
    } else if k == 2 {
      assert p[..2] == "//";
    }
    assert p[..k] == Slashes(k);
    assert p == p[..k] + p[k..];
  }

  /** A path ending in anything but a slash does not end with `/`. */
  lemma NotEndingInSlash(p: string)
    requires p != "" && p[|p| - 1] != '/'
    ensures !EndsWith(p, "/")
  {
    assert p[|p| - 1..] == [p[|p| - 1]];
  }

  /**
   For folder names that are non-empty and hold no slash, the fold of
   two-argument joins is the names joined by single slashes.
   */
  lemma {:induction false} JoinAllOfNames(parts: seq<string>)
    requires |parts| >= 1
    requires forall k :: 0 <= k < |parts| ==> parts[k] != "" && '/' !in parts[k]
    ensures JoinAll(parts) == JoinWith(parts, '/')
    decreases |parts|
  {
    if |parts| > 1 {
      var init := parts[..|parts| - 1];
      var last := parts[|parts| - 1];
      JoinAllOfNames(init);
      JoinSplitsLast(parts, '/');
      var j := JoinWith(init, '/');
      var lastOfInit := init[|init| - 1];
      if |init| >= 2 {
        JoinSplitsLast(init, '/');
        assert j == JoinWith(init[..|init| - 1], '/') + ['/'] + lastOfInit;
      } else {
        assert j == lastOfInit;
      }
      assert j[|j| - 1] == lastOfInit[|lastOfInit| - 1];
      assert lastOfInit[|lastOfInit| - 1] in lastOfInit;
      NotEndingInSlash(j);
      assert last[0] in last;
      assert !StartsWith(last, "/");
    }
  }

  /**
   Names that are non-empty, hold no slash and are neither `.` nor `..`,
   joined by single slashes, form a path normpath leaves alone.
   */
  lemma PlainNamesAreNormal(parts: seq<string>)
    requires |parts| >= 1
    requires forall k :: 0 <= k < |parts| ==>
      parts[k] != "" && parts[k] != "." && parts[k] != ".." && '/' !in parts[k]
    ensures NormPath(JoinWith(parts, '/')) == JoinWith(parts, '/')
  {
    PlainNamesFormNormalPath(parts);
    NormPathKeepsNormal(JoinWith(parts, '/'));
  }

  lemma PlainNamesFormNormalPath(parts: seq<string>)
    requires |parts| >= 1
    requires forall k :: 0 <= k < |parts| ==>
      parts[k] != "" && parts[k] != "." && parts[k] != ".." && '/' !in parts[k]
    ensures IsNormalPath(JoinWith(parts, '/'))
  {
    var r := JoinWith(parts, '/');
    NoLeadingSlash(parts);
    assert r[0..] == r;
    SplitJoin(parts, '/');
    assert NormalComponents(parts, false);
  }

  /** Components joined by slashes, the first non-empty and slash-free, keep no leading slash. */
  lemma NoLeadingSlash(parts: seq<string>)
    requires |parts| >= 1 && parts[0] != "" && '/' !in parts[0]
    ensures JoinWith(parts, '/') != "" && InitialSlashes(JoinWith(parts, '/')) == 0
  {
    var r := JoinWith(parts, '/');
    JoinStartsWithFirst(parts, '/');
    assert r[0] == parts[0][0];
    assert parts[0][0] in parts[0];
  }

  /** normpath is idempotent. */
  lemma NormPathIdempotent(p: string)
    ensures NormPath(NormPath(p)) == NormPath(p)
  {
    NormPathKeepsNormal(NormPath(p));
  }

  /** normpath keeps a path absolute exactly when it was absolute. */
  lemma NormPathKeepsAbsoluteness(p: string)
    ensures StartsWith(NormPath(p), "/") <==> StartsWith(p, "/")
  {
    if p != "" {
      var k := InitialSlashes(p);
      var comps := Collapse([], Split(p[k..], '/'), k > 0);
      NormPathUnfold(p);
      CollapseNormal([], Split(p[k..], '/'), k > 0);
      RenderedAbsoluteness(k, comps);
    } else {
      assert NormPath(p)[0] == '.';
    }
  }

  /** Rendering keeps a leading slash exactly when it keeps some slashes. */
  lemma RenderedAbsoluteness(k: nat, comps: seq<string>)
    requires k <= 2 && NormalComponents(comps, k > 0)
    ensures var q := Slashes(k) + JoinWith(comps, '/');
            StartsWith(if q == "" then "." else q, "/") <==> k > 0
  {
    var q := Slashes(k) + JoinWith(comps, '/');
    if k > 0 {
      assert q[0] == '/';
    } else if comps != [] {
      NoLeadingSlash(comps);
      assert q == JoinWith(comps, '/');
      assert !StartsWith(q, "/");
    } else {
      assert q == "";
      assert "."[0] == '.';
    }
  }

  /** A name that is a path component of its own: non-empty, slash-free, neither `.` nor `..`. */
  predicate PlainName(n: string) {
    n != "" && n != "." && n != ".." && '/' !in n
  }

  /** normpath's component loop over two runs of components is the loop over the second, continued from the first. */
  lemma {:induction false} CollapseAppend(acc: seq<string>, cs: seq<string>, ds: seq<string>, absolute: bool)
    ensures Collapse(acc, cs + ds, absolute) == Collapse(Collapse(acc, cs, absolute), ds, absolute)
    decreases |cs|
  {
    if |cs| == 0 {
      assert cs + ds == ds;
    } else {
      assert (cs + ds)[0] == cs[0];
      assert (cs + ds)[1..] == cs[1..] + ds;
      CollapseAppend(Step(acc, cs[0], absolute), cs[1..], ds, absolute);
    }
  }

  /** A plain name followed by `..` cancels out, whatever came before. */
  lemma NameThenParentCancels(acc: seq<string>, n: string, absolute: bool)
    requires PlainName(n)
    ensures Collapse(acc, [n, ".."], absolute) == acc
  {
    assert Step(acc, n, absolute) == acc + [n];
    assert (acc + [n])[..|acc|] == acc;
    assert Collapse(acc + [n], [".."], absolute) == Step(acc + [n], "..", absolute);
  }

  /** normpath read off the components of the whole path, leading slashes included. */
  lemma NormPathBySplit(p: string)
    ensures var k := InitialSlashes(p);
            var q := Slashes(k) + JoinWith(Collapse([], Split(p, '/'), k > 0), '/');
            NormPath(p) == if q == "" then "." else q
  {
    if p == "" {
      SplitNoSeparator(p, '/');
      assert Collapse([], [""], false) == [];
    }
  }

  /** Two paths with the same kept slashes and the same collapsed components normalise alike. */
  lemma SameComponentsSameNormPath(s: string, t: string)
    requires InitialSlashes(s) == InitialSlashes(t)
    requires Collapse([], Split(s, '/'), InitialSlashes(s) > 0) == Collapse([], Split(t, '/'), InitialSlashes(t) > 0)
    ensures NormPath(s) == NormPath(t)
  {
    NormPathBySplit(s);
    NormPathBySplit(t);
  }

  /** A prefix that is not all slashes fixes how many slashes normpath keeps. */
  lemma InitialSlashesOfExtension(p: string, s: string)
    requires p != Slashes(|p|) && StartsWith(s, p)
    ensures InitialSlashes(s) == InitialSlashes(p)
  {
    var i :| 0 <= i < |p| && p[i] != '/';
    assert s[i] == p[i];
    if |p| >= 3 {
      assert s[..3] == p[..3];
    } else if |p| == 2 {
      assert s[..2] == p[..2];
    } else {
      assert s[0] == p[0];
    }
  }

  /** Splitting `c/q`, for a component `c` without slashes. */
  lemma SplitLeadingComponent(c: string, q: string)
    requires '/' !in c
    ensures Split(c + "/" + q, '/') == [c] + Split(q, '/')
  {
    SplitAtSeparator(c, q, '/');
    SplitNoSeparator(c, '/');
  }

  /** Splitting `p/c/q`, for a component `c` without slashes. */
  lemma SplitAroundComponent(p: string, c: string, q: string)
    requires '/' !in c
    ensures Split(p + "/" + (c + "/" + q), '/') == Split(p, '/') + [c] + Split(q, '/')
  {
    SplitAtSeparator(p, c + "/" + q, '/');
    SplitLeadingComponent(c, q);
  }

  /** The loop skips an empty or `.` component wherever it stands. */
  lemma CollapseDropsComponent(ps: seq<string>, c: string, qs: seq<string>, absolute: bool)
    requires c == "" || c == "."
    ensures Collapse([], ps + [c] + qs, absolute) == Collapse([], ps + qs, absolute)
  {
    CollapseAppend([], ps + [c], qs, absolute);
    CollapseAppend([], ps, [c], absolute);
    CollapseAppend([], ps, qs, absolute);
  }

  /** The loop cancels a plain name followed by `..` wherever they stand. */
  lemma CollapseDropsNameThenParent(ps: seq<string>, n: string, qs: seq<string>, absolute: bool)
    requires PlainName(n)
    ensures Collapse([], ps + [n, ".."] + qs, absolute) == Collapse([], ps + qs, absolute)
  {
    CollapseAppend([], ps + [n, ".."], qs, absolute);
    CollapseAppend([], ps, [n, ".."], absolute);
    NameThenParentCancels(Collapse([], ps, absolute), n, absolute);
    CollapseAppend([], ps, qs, absolute);
  }

  /** An empty or `.` component between `p` and `q` is dropped. */
  lemma NormPathDropsComponent(p: string, c: string, q: string)
    requires p != Slashes(|p|) && (c == "" || c == ".")
    ensures NormPath(p + "/" + (c + "/" + q)) == NormPath(p + "/" + q)
  {
    SplitAroundComponent(p, c, q);
    SplitAtSeparator(p, q, '/');
    CollapseDropsComponent(Split(p, '/'), c, Split(q, '/'), InitialSlashes(p) > 0);
    InitialSlashesOfExtension(p, p + "/" + (c + "/" + q));
    InitialSlashesOfExtension(p, p + "/" + q);
    SameComponentsSameNormPath(p + "/" + (c + "/" + q), p + "/" + q);
  }

  /** A `.` component is dropped: `p/./q` normalises as `p/q`. */
  lemma NormPathDropsDot(p: string, q: string)
    requires p != Slashes(|p|)
    ensures NormPath(p + "/./" + q) == NormPath(p + "/" + q)
  {
    assert p + "/./" + q == p + "/" + ("." + "/" + q);
    NormPathDropsComponent(p, ".", q);
  }

  /** A doubled slash inside a path counts as one: `p//q` normalises as `p/q`. */
  lemma NormPathDropsEmpty(p: string, q: string)
    requires p != Slashes(|p|)
    ensures NormPath(p + "//" + q) == NormPath(p + "/" + q)
  {
    assert p + "//" + q == p + "/" + ("" + "/" + q);
    NormPathDropsComponent(p, "", q);
  }

  /** Splitting `n/../q`, for a name `n` without slashes. */
  lemma SplitNameThenParent(n: string, q: string)
    requires '/' !in n
    ensures Split(n + "/" + (".." + "/" + q), '/') == [n, ".."] + Split(q, '/')
  {
    SplitLeadingComponent(n, ".." + "/" + q);
    SplitLeadingComponent("..", q);
  }

  /** Splitting `p/n/../q`, for a name `n` without slashes. */
  lemma SplitAroundNameThenParent(p: string, n: string, q: string)
    requires '/' !in n
    ensures Split(p + "/" + (n + "/" + (".." + "/" + q)), '/') == Split(p, '/') + [n, ".."] + Split(q, '/')
  {
    SplitAtSeparator(p, n + "/" + (".." + "/" + q), '/');
    SplitNameThenParent(n, q);
  }

  /** The parent rule with the path written as `p/(n/(../q))`. */
  lemma NormPathCancelsNestedParent(p: string, n: string, q: string)
    requires p != Slashes(|p|) && PlainName(n)
    ensures NormPath(p + "/" + (n + "/" + (".." + "/" + q))) == NormPath(p + "/" + q)
  {
    var s := p + "/" + (n + "/" + (".." + "/" + q));
    SplitAroundNameThenParent(p, n, q);
    SplitAtSeparator(p, q, '/');
    CollapseDropsNameThenParent(Split(p, '/'), n, Split(q, '/'), InitialSlashes(p) > 0);
    InitialSlashesOfExtension(p, s);
    InitialSlashesOfExtension(p, p + "/" + q);
    SameComponentsSameNormPath(s, p + "/" + q);
  }

  /** A plain name followed by `..` cancels out: `p/n/../q` normalises as `p/q`. */
  lemma NormPathCancelsParent(p: string, n: string, q: string)
    requires p != Slashes(|p|) && PlainName(n)
    ensures NormPath(p + "/" + n + "/../" + q) == NormPath(p + "/" + q)
  {
    assert p + "/" + n + "/../" + q == p + "/" + (n + "/" + (".." + "/" + q));
    NormPathCancelsNestedParent(p, n, q);
  }

  /** A leading plain name followed by `..` cancels out: `n/../q` normalises as `q`, for a relative `q`. */
  lemma NormPathCancelsLeadingParent(n: string, q: string)
    requires PlainName(n) && !StartsWith(q, "/")
    ensures NormPath(n + "/../" + q) == NormPath(q)
  {
    var s := n + "/" + (".." + "/" + q);
    assert n + "/../" + q == s;
    SplitNameThenParent(n, q);
    CollapseDropsNameThenParent([], n, Split(q, '/'), false);
    assert [] + [n, ".."] + Split(q, '/') == [n, ".."] + Split(q, '/');
    assert [] + Split(q, '/') == Split(q, '/');
    assert s[0] == n[0] && n[0] in n;
    SameComponentsSameNormPath(s, q);
  }

  /** For instance, `normpath("a/../b")` is `b`. */
  lemma ParentOfNameCollapses()
    ensures NormPath("a/../b") == "b"
  {
    assert "a"[0] == 'a' && "b"[0] == 'b';
    assert PlainName("a") && !StartsWith("b", "/");
    assert "a" + "/../" + "b" == "a/../b";
    NormPathCancelsLeadingParent("a", "b");
    assert JoinWith(["b"], '/') == "b";
    PlainNamesAreNormal(["b"]);
  }

  /** `..` directly under the root is dropped: `/../q` normalises as `/q`, for a relative `q`. */
  lemma NormPathDropsRootParent(q: string)
    requires !StartsWith(q, "/")
    ensures NormPath("/../" + q) == NormPath("/" + q)
  {
    var s := "" + "/" + (".." + "/" + q);
    var t := "" + "/" + q;
    assert "/../" + q == s && "/" + q == t;
    SplitNameThenParent("", q);
    SplitLeadingComponent("", q);
    CollapseAppend([], ["", ".."], Split(q, '/'), true);
    CollapseAppend([], [""], Split(q, '/'), true);
    assert Collapse([], ["", ".."], true) == [];
    assert Collapse([], [""], true) == [];
    assert s[0] == '/' && s[1] == '.' && t[0] == '/';
    assert |t| >= 2 ==> t[1] != '/';
    SameComponentsSameNormPath(s, t);
  }

  /** The root has no parent: `normpath("/..")` is `/`. */
  lemma RootParentIsRoot()
    ensures NormPath("/..") == "/"
  {
    var s := "" + "/" + "..";
    assert "/.." == s;
    SplitLeadingComponent("", "..");
    SplitNoSeparator("..", '/');
    assert Collapse([], ["", ".."], true) == [];
    assert s[0] == '/' && s[1] == '.';
    NormPathBySplit(s);
  }

  /** A plain name followed by `..` leaves nothing, which normpath writes as `.`. */
  lemma NormPathNameThenParentIsDot(n: string)
    requires PlainName(n)
    ensures NormPath(n + "/..") == "."
  {
    var s := n + "/" + "..";
    assert n + "/.." == s;
    NameThenParentIsEmpty(n);
  }

  /** The parent rule with the path written as `n + "/" + ".."`. */
  lemma NameThenParentIsEmpty(n: string)
    requires PlainName(n)
    ensures NormPath(n + "/" + "..") == "."
  {
    var s := n + "/" + "..";
    SplitLeadingComponent(n, "..");
    SplitNoSeparator("..", '/');
    assert [n] + [".."] == [n, ".."];
    NameThenParentCancels([], n, false);
    assert s[0] == n[0] && n[0] in n;
    assert InitialSlashes(s) == 0;
    assert Slashes(0) + JoinWith([], '/') == "";
    NormPathBySplit(s);
  }

  /** Index just past the last slash of `p` (0 when it has none). */
  function AfterLastSlash(p: string): (i: nat)
    ensures i <= |p|
    ensures i > 0 ==> p[i - 1] == '/'
    ensures forall j :: i <= j < |p| ==> p[j] != '/'
  {
    match FindLast(p, '/')
    case None => 0
    case Some(j) => j + 1
  }

  /** `os.path.basename(p)`: everything after the last slash. */
  function Basename(p: string): (r: string)
    ensures '/' !in r
    ensures EndsWith(p, r)
    ensures |r| == |p| - AfterLastSlash(p)
  {
    p[AfterLastSlash(p)..]
  }

  /**
   `os.path.dirname(p)`: everything up to the last slash, with trailing
   slashes removed unless that would leave nothing but slashes removed.
   */
  function DirName(p: string): (r: string)
    ensures StartsWith(p, r)
    ensures |r| <= AfterLastSlash(p)
    ensures r == [] || r == Slashes(|r|) || r[|r| - 1] != '/'
    ensures forall j :: |r| <= j < AfterLastSlash(p) ==> p[j] == '/'
    ensures r == [] <==> AfterLastSlash(p) == 0
    ensures p[..AfterLastSlash(p)] == Slashes(AfterLastSlash(p)) ==> r == p[..AfterLastSlash(p)]
  {
    var head := p[..AfterLastSlash(p)];
    if head != "" && head != Slashes(|head|) then
      var r := TrimRight(head, {'/'});
      assert p[..|r|] == head[..|r|];
      assert forall j :: |r| <= j < |head| ==> p[j] == head[j];
      r
    else head
  }

  /** Dropping the one trailing slash of a head whose previous character is not a slash. */
  lemma TrimOneSlash(head: string)
    requires |head| >= 2 && head[|head| - 1] == '/' && head[|head| - 2] != '/'
    ensures TrimRight(head, {'/'}) == head[..|head| - 1]
    ensures head != Slashes(|head|)
  {
    assert Slashes(|head|)[|head| - 2] == '/';
  }

  /**
   For a path without doubled slashes, joining its dirname and basename
   rebuilds it.
   */
  lemma DirNameJoinBasename(p: string)
    requires forall j :: 0 < j < |p| && p[j] == '/' ==> p[j - 1] != '/'
    ensures Join(DirName(p), Basename(p)) == p
  {
    var i := AfterLastSlash(p);
    if i == 0 {
      ShortHead(p);
      assert p[..0] + p[0..] == p;
    } else if i == 1 {
      RootHeadJoin(p);
    } else {
      InnerHeadJoin(p);
    }
  }

  /** A path whose only kept slash is the root joins back as `/` plus its basename. */
  lemma RootHeadJoin(p: string)
    requires AfterLastSlash(p) == 1
    ensures Join(DirName(p), Basename(p)) == p
  {
    var b := p[1..];
    var head := p[..1];
    ShortHead(p);
    assert head == "/";
    assert !StartsWith(b, "/") by {
      assert b == [] || b[0] != '/';
    }
    assert Join(head, b) == head + b;
    assert head + b == p;
  }

  /** A head that does not end in a doubled slash joins back with one separator. */
  lemma InnerHeadJoin(p: string)
    requires AfterLastSlash(p) >= 2 && p[AfterLastSlash(p) - 2] != '/'
    ensures Join(DirName(p), Basename(p)) == p
  {
    var i := AfterLastSlash(p);
    var b := p[i..];
    var r := p[..i - 1];
    LongHead(p);
    assert b == [] || b[0] != '/';
    assert r[|r| - 1] != '/';
    NotEndingInSlash(r);
    JoinRelative(r, b);
    assert r + "/" + b == p;
  }

  /** A head of at most one character is its own dirname. */
  lemma ShortHead(p: string)
    requires AfterLastSlash(p) <= 1
    ensures DirName(p) == p[..AfterLastSlash(p)]
  {
    var i := AfterLastSlash(p);
    if i == 1 {
      assert p[..1] == Slashes(1);
    }
  }

  /** A longer head loses exactly its last slash when the character before it is not a slash. */
  lemma LongHead(p: string)
    requires AfterLastSlash(p) >= 2 && p[AfterLastSlash(p) - 2] != '/'
    ensures DirName(p) == p[..AfterLastSlash(p) - 1]
  {
    var head := p[..AfterLastSlash(p)];
    TrimOneSlash(head);
    assert head[..|head| - 1] == p[..AfterLastSlash(p) - 1];
  }

  /** The dirname of `d/name`, for a folder `d` not ending in a slash and a slash-free name, is `d`. */
  lemma DirNameOfChild(d: string, name: string)
    requires d != "" && !EndsWith(d, "/") && '/' !in name
    ensures DirName(d + "/" + name) == d
  {
    var p := d + "/" + name;
    var i := AfterLastSlash(p);
    assert p[|d|] == '/';
    assert forall j :: |d| < j < |p| ==> p[j] == name[j - |d| - 1];
    assert i == |d| + 1;
    var r := DirName(p);
    assert d[|d| - 1] != '/' by {
      assert d[|d| - 1..] == [d[|d| - 1]];
    }
    assert p[|d| - 1] == d[|d| - 1];
    assert |r| == |d|;
    assert r == p[..|d|];
  }

  /** A path without a slash has an empty dirname. */
  lemma DirNameOfPlainName(p: string)
    requires '/' !in p
    ensures DirName(p) == ""
  {
  }
}
