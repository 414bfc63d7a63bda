/**
 Python string primitives the rewriting code relies on: prefix tests,
 `str.find`, `str.strip(chars)`, `str.split(sep)` and `sep.join(parts)`.
 */
module Text {
  import opened Wrappers

  predicate StartsWith(s: string, prefix: string) {
    |prefix| <= |s| && s[..|prefix|] == prefix
  }

  /** `s` holds `t` starting at offset `i`. */
  predicate StartsWithAt(s: string, i: nat, t: string) {
    i + |t| <= |s| && s[i..i + |t|] == t
  }

  predicate EndsWith(s: string, suffix: string) {
    |suffix| <= |s| && s[|s| - |suffix|..] == suffix
  }

  /** Index of the first character at or after `i` that belongs to `cs`. */
  function FindFirst(s: string, i: nat, cs: set<char>): (r: Option<nat>)
    ensures r.Some? ==> i <= r.value < |s| && s[r.value] in cs
    ensures r.Some? ==> forall j :: i <= j < r.value ==> s[j] !in cs
    ensures r.None? ==> forall j :: i <= j < |s| ==> s[j] !in cs
    decreases |s| - i
  {
    if i >= |s| then None
    else if s[i] in cs then Some(i)
    else FindFirst(s, i + 1, cs)
  }

  /** Index of the last occurrence of `c` in `s`, as `str.rfind`. */
  function FindLast(s: string, c: char): (r: Option<nat>)
    ensures r.Some? ==> r.value < |s| && s[r.value] == c
    ensures r.Some? ==> forall j :: r.value < j < |s| ==> s[j] != c
    ensures r.None? ==> forall j :: 0 <= j < |s| ==> s[j] != c
  {
    if |s| == 0 then None
    else if s[|s| - 1] == c then Some(|s| - 1)
    else FindLast(s[..|s| - 1], c)
  }

  /** `s.lstrip(cs)`: the suffix left after dropping leading characters of `cs`. */
  function TrimLeft(s: string, cs: set<char>): (r: string)
    ensures |r| <= |s| && r == s[|s| - |r|..]
    ensures forall i :: 0 <= i < |s| - |r| ==> s[i] in cs
    ensures r == [] || r[0] !in cs
  {
    if |s| > 0 && s[0] in cs then
      var r := TrimLeft(s[1..], cs);
      assert s[1..][|s| - 1 - |r|..] == s[|s| - |r|..];
      r
    else s
  }

  /** `s.rstrip(cs)`: the prefix left after dropping trailing characters of `cs`. */
  function TrimRight(s: string, cs: set<char>): (r: string)
    ensures |r| <= |s| && r == s[..|r|]
    ensures forall i :: |r| <= i < |s| ==> s[i] in cs
    ensures r == [] || r[|r| - 1] !in cs
  {
    if |s| > 0 && s[|s| - 1] in cs then
      var r := TrimRight(s[..|s| - 1], cs);
      assert s[..|s| - 1][..|r|] == s[..|r|];
      r
    else s
  }

  /** Length of the run of `cs` characters that opens `s`. */
  function LeadingRun(s: string, cs: set<char>): (a: nat)
    ensures a <= |s|
    ensures forall i :: 0 <= i < a ==> s[i] in cs
    ensures a == |s| || s[a] !in cs
  {
    var t := TrimLeft(s, cs);
    assert t != [] ==> s[|s| - |t|] == t[0];
    |s| - |t|
  }

  /**
   `s.strip(cs)`: the middle of `s` once the longest runs of `cs` characters
   at both ends are removed.
   */
  function Strip(s: string, cs: set<char>): (r: string)
    ensures var a := LeadingRun(s, cs);
            && a + |r| <= |s| && s[a..a + |r|] == r
            && (forall i :: a + |r| <= i < |s| ==> s[i] in cs)
    ensures r == [] || (r[0] !in cs && r[|r| - 1] !in cs)
  {
    var a := LeadingRun(s, cs);
    var r := TrimRight(s[a..], cs);
    StripMiddle(s, cs, a, r);
    r
  }

  lemma StripMiddle(s: string, cs: set<char>, a: nat, r: string)
    requires a <= |s| && (a == |s| || s[a] !in cs)
    requires |r| <= |s| - a && r == s[a..][..|r|]
    requires forall i :: |r| <= i < |s| - a ==> s[a..][i] in cs
    requires r == [] || r[|r| - 1] !in cs
    ensures a + |r| <= |s| && s[a..a + |r|] == r
    ensures forall i :: a + |r| <= i < |s| ==> s[i] in cs
    ensures r == [] || (r[0] !in cs && r[|r| - 1] !in cs)
  {
    assert s[a..a + |r|] == s[a..][..|r|];
    assert forall i :: a + |r| <= i < |s| ==> s[i] == s[a..][i - a];
    assert r != [] ==> r[0] == s[a];
  }

  /**
   Strip is determined by its characterisation: whatever lies between a run
   of `cs` characters and another run of them, and neither begins nor ends
   with one, is what Strip returns.
   */
  lemma StripUnique(lead: string, t: string, trail: string, cs: set<char>)
    requires forall i :: 0 <= i < |lead| ==> lead[i] in cs
    requires forall i :: 0 <= i < |trail| ==> trail[i] in cs
    requires t == [] || (t[0] !in cs && t[|t| - 1] !in cs)
    ensures Strip(lead + t + trail, cs) == t
  {
    var s := lead + t + trail;
    var r := Strip(s, cs);
    var a := LeadingRun(s, cs);
    if t == [] {
      assert forall i :: 0 <= i < |s| ==> s[i] in cs;
    } else {
      assert s[|lead|] == t[0];
      assert s[|lead| + |t| - 1] == t[|t| - 1];
      assert s[a] == r[0];
      assert s[a + |r| - 1] == r[|r| - 1];
      assert a == |lead|;
      assert a + |r| == |lead| + |t|;
      assert r == s[|lead|..|lead| + |t|];
    }
  }

  /** `sep.join(parts)`. */
  function JoinWith(parts: seq<string>, sep: char): string
  {
    if |parts| == 0 then ""
    else if |parts| == 1 then parts[0]
    else parts[0] + [sep] + JoinWith(parts[1..], sep)
  }

  /**
   `s.split(sep)`: always at least one part, no part holds the separator,
   and joining the parts back with the separator gives `s`.
   */
  function Split(s: string, sep: char): (parts: seq<string>)
    ensures |parts| >= 1
    ensures forall k :: 0 <= k < |parts| ==> sep !in parts[k]
    ensures JoinWith(parts, sep) == s
    decreases |s|
  {
    match FindFirst(s, 0, {sep})
    case None => [s]
    case Some(i) =>
      var rest := Split(s[i + 1..], sep);
      var parts := [s[..i]] + rest;
      assert parts[1..] == rest;
      assert s == s[..i] + [sep] + s[i + 1..];
      parts
  }

  /** Splitting a join of separator-free parts gives the parts back. */
  lemma {:induction false} SplitJoin(parts: seq<string>, sep: char)
    requires |parts| >= 1
    requires forall k :: 0 <= k < |parts| ==> sep !in parts[k]
    ensures Split(JoinWith(parts, sep), sep) == parts
    decreases |parts|
  {
    var s := JoinWith(parts, sep);
    if |parts| == 1 {
      assert FindFirst(s, 0, {sep}).None?;
    } else {
      var rest := JoinWith(parts[1..], sep);
      assert s == parts[0] + [sep] + rest;
      var p := parts[0];
      assert s[|p|] == sep;
      assert forall j :: 0 <= j < |p| ==> s[j] == p[j];
      assert FindFirst(s, 0, {sep}) == Some(|p|);
      assert s[..|p|] == p;
      assert s[|p| + 1..] == rest;
      SplitJoin(parts[1..], sep);
      assert [p] + parts[1..] == parts;
    }
  }

  /** A leading separator splits off one empty part. */
  lemma SplitLeadingSeparator(t: string, sep: char)
    ensures Split([sep] + t, sep) == [""] + Split(t, sep)
  {
    var s := [sep] + t;
    assert FindFirst(s, 0, {sep}) == Some(0);
    assert s[1..] == t;
  }

  /** Joining two non-empty runs of parts puts one separator between their joins. */
  lemma {:induction false} JoinAppend(xs: seq<string>, ys: seq<string>, sep: char)
    requires |xs| >= 1 && |ys| >= 1
    ensures JoinWith(xs + ys, sep) == JoinWith(xs, sep) + [sep] + JoinWith(ys, sep)
    decreases |xs|
  {
    assert (xs + ys)[0] == xs[0];
    if |xs| == 1 {
      assert (xs + ys)[1..] == ys;
    } else {
      JoinAppend(xs[1..], ys, sep);
      assert (xs + ys)[1..] == xs[1..] + ys;
    }
  }

  /** Splitting at a separator splits the text on either side of it independently. */
  lemma SplitAtSeparator(a: string, b: string, sep: char)
    ensures Split(a + [sep] + b, sep) == Split(a, sep) + Split(b, sep)
  {
    var xs := Split(a, sep);
    var ys := Split(b, sep);
    JoinAppend(xs, ys, sep);
    assert forall k :: 0 <= k < |xs + ys| ==> sep !in (xs + ys)[k] by {
      forall k | 0 <= k < |xs + ys| ensures sep !in (xs + ys)[k] {
        if k >= |xs| {
          assert (xs + ys)[k] == ys[k - |xs|];
        }
      }
    }
    SplitJoin(xs + ys, sep);
  }

  /** Text without the separator is a single part. */
  lemma SplitNoSeparator(t: string, sep: char)
    requires sep !in t
    ensures Split(t, sep) == [t]
  {
    assert FindFirst(t, 0, {sep}).None?;
  }

  /** A join of parts starts with the first part. */
  lemma JoinStartsWithFirst(parts: seq<string>, sep: char)
    requires |parts| >= 1
    ensures StartsWith(JoinWith(parts, sep), parts[0])
  {
    if |parts| > 1 {
      assert JoinWith(parts, sep) == parts[0] + ([sep] + JoinWith(parts[1..], sep));
    }
  }

  /** A join of non-empty parts is empty only when there are no parts. */
  lemma JoinEmpty(parts: seq<string>, sep: char)
    requires forall k :: 0 <= k < |parts| ==> parts[k] != ""
    ensures JoinWith(parts, sep) == "" <==> parts == []
  {
    if |parts| >= 1 {
      JoinStartsWithFirst(parts, sep);
    }
  }

  /** Joining at least two parts ends with the separator and the last part. */
  lemma {:induction false} JoinSplitsLast(parts: seq<string>, sep: char)
    requires |parts| >= 2
    ensures JoinWith(parts, sep) == JoinWith(parts[..|parts| - 1], sep) + [sep] + parts[|parts| - 1]
    decreases |parts|
  {
    if |parts| > 2 {
      JoinSplitsLast(parts[1..], sep);
      assert parts[1..][..|parts| - 2] == parts[..|parts| - 1][1..];
      assert parts[1..][|parts| - 2] == parts[|parts| - 1];
    }
  }
}
