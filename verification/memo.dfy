/**
 The `change_urls` callbacks of the rewrite engine and of the preprocessing
 view both keep a `local_cache` dict: the replacement for a path is computed
 once per substitution run and reused for every later token with that path.
 */
module Memo {
  import opened Scanner

  /** What the callback does with one match. */
  datatype Action =
    | Keep                  // return the matched text
    | Resolve(path: string) // return the (cached) replacement computed for this path

  /** The replacement for a match, ignoring the cache. */
  function Replacement(s: string, m: Span, a: Action, emit: string -> string): string
    requires m.start <= m.end <= |s|
  {
    match a
    case Keep => s[m.start..m.end]
    case Resolve(p) => emit(p)
  }

  function Replacements(s: string, ms: seq<Span>, acts: seq<Action>, emit: string -> string): (reps: seq<string>)
    requires ValidSpans(s, ms) && |acts| == |ms|
    ensures |reps| == |ms|
    ensures forall k :: 0 <= k < |ms| ==> reps[k] == Replacement(s, ms[k], acts[k], emit)
  {
    seq(|ms|, k requires 0 <= k < |ms| => Replacement(s, ms[k], acts[k], emit))
  }

  /** The paths a list of actions needs a replacement for. */
  function ResolvedPaths(acts: seq<Action>): set<string>
  {
    if |acts| == 0 then {}
    else
      var last := acts[|acts| - 1];
      ResolvedPaths(acts[..|acts| - 1]) + (if last.Resolve? then {last.path} else {})
  }

  lemma ResolvedPathsSnoc(acts: seq<Action>, k: nat)
    requires k < |acts|
    ensures ResolvedPaths(acts[..k + 1]) ==
      ResolvedPaths(acts[..k]) + (if acts[k].Resolve? then {acts[k].path} else {})
  {
    assert acts[..k + 1][..k] == acts[..k];
  }

  /** Emitting the gap and the replacement of match `k` keeps the output on track. */
  lemma SpliceStep(s: string, ms: seq<Span>, reps: seq<string>, k: nat, pos: nat, out: string, piece: string)
    requires ValidSpans(s, ms) && |reps| == |ms| && k < |ms| && pos <= ms[k].start
    requires piece == reps[k]
    ensures (out + s[pos..ms[k].start] + piece) + SpliceFrom(s, ms, reps, k + 1, ms[k].end)
         == out + SpliceFrom(s, ms, reps, k, pos)
  {
    var rest := SpliceFrom(s, ms, reps, k + 1, ms[k].end);
    assert SpliceFrom(s, ms, reps, k, pos) == s[pos..ms[k].start] + reps[k] + rest;
  }

  predicate Distinct(xs: seq<string>) {
    forall i, j :: 0 <= i < j < |xs| ==> xs[i] != xs[j]
  }

  /**
   One `local_cache` lookup: on a miss `emit` runs and its result is stored;
   either way the answer is `emit(p)`, and `calls` grows by `p` exactly on a miss.
   */
  method CachedEmit(cache: map<string, string>, calls: seq<string>, p: string, emit: string -> string)
    returns (piece: string, cache': map<string, string>, calls': seq<string>)
    requires forall q :: q in cache <==> q in calls
    requires forall q :: q in cache ==> cache[q] == emit(q)
    requires Distinct(calls)
    ensures piece == emit(p)
    ensures forall q :: q in cache' <==> q in calls'
    ensures forall q :: q in calls' <==> q in calls || q == p
    ensures forall q :: q in cache' ==> cache'[q] == emit(q)
    ensures Distinct(calls')
    ensures p in calls ==> calls' == calls
  {
    cache', calls' := cache, calls;
    if p !in cache {
      var u := emit(p);
      cache' := cache[p := u];
      calls' := calls + [p];
    }
    piece := cache'[p];
  }

  /**
   The state of a memoizing `re.sub` run after `k` matches: the output so
   far followed by the rest of the substitution gives the full result, the
   cache holds exactly the listed paths with their true replacements, and
   the list holds each path the first `k` actions needed, once.
   */
  ghost predicate Tracking(s: string, ms: seq<Span>, acts: seq<Action>, emit: string -> string,
                           k: nat, pos: nat, out: string, cache: map<string, string>, calls: seq<string>)
    requires ValidSpans(s, ms) && |acts| == |ms|
  {
    && k <= |ms| && pos <= |s|
    && (k < |ms| ==> pos <= ms[k].start)
    && out + SpliceFrom(s, ms, Replacements(s, ms, acts, emit), k, pos) == Splice(s, ms, Replacements(s, ms, acts, emit))
    && (forall p :: p in cache <==> p in calls)
    && (forall p :: p in calls <==> p in ResolvedPaths(acts[..k]))
    && (forall p :: p in cache ==> cache[p] == emit(p))
    && Distinct(calls)
  }

  /** One callback invocation of the memoizing `re.sub`: handles match `k`. */
  method MemoStep(s: string, ms: seq<Span>, acts: seq<Action>, emit: string -> string,
                  k: nat, pos: nat, out: string, cache: map<string, string>, calls: seq<string>)
    returns (pos': nat, out': string, cache': map<string, string>, calls': seq<string>)
    requires ValidSpans(s, ms) && |acts| == |ms| && k < |ms|
    requires Tracking(s, ms, acts, emit, k, pos, out, cache, calls)
    ensures Tracking(s, ms, acts, emit, k + 1, pos', out', cache', calls')
  {
    ghost var reps := Replacements(s, ms, acts, emit);
    var piece: string;
    cache', calls' := cache, calls;
    match acts[k] {
      case Keep =>
        piece := s[ms[k].start..ms[k].end];
      case Resolve(p) =>
        piece, cache', calls' := CachedEmit(cache, calls, p, emit);
    }
    assert piece == reps[k];
    ResolvedPathsSnoc(acts, k);
    SpliceStep(s, ms, reps, k, pos, out, piece);
    out' := out + s[pos..ms[k].start] + piece;
    pos' := ms[k].end;
  }

  /**
   `re.sub` with a memoizing callback. `calls` lists, in order, the paths
   for which `emit` was evaluated. The output is the one a callback without
   a cache would give, and `emit` ran exactly once for each distinct path
   that needed it.
   */
  method MemoSplice(s: string, ms: seq<Span>, acts: seq<Action>, emit: string -> string)
    returns (out: string, calls: seq<string>)
    requires ValidSpans(s, ms) && |acts| == |ms|
    ensures out == Splice(s, ms, Replacements(s, ms, acts, emit))
    ensures Distinct(calls)
    ensures forall p :: p in calls <==> p in ResolvedPaths(acts)
  {
    var cache: map<string, string> := map[];
    out := [];
    calls := [];
    var pos: nat := 0;
    var k: nat := 0;
    while k < |ms|
      invariant Tracking(s, ms, acts, emit, k, pos, out, cache, calls)
      decreases |ms| - k
    {
      pos, out, cache, calls := MemoStep(s, ms, acts, emit, k, pos, out, cache, calls);
      k := k + 1;
    }
    assert acts[..k] == acts;
    assert SpliceFrom(s, ms, Replacements(s, ms, acts, emit), k, pos) == s[pos..];
    out := out + s[pos..];
  }
}
