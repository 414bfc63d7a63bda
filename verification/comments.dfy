// The block-comment regex `/\*.*?\*/` as Python's `re` applies it without
// DOTALL: a comment opens with slash-star, closes at the first star-slash
// after the opener, and cannot span a newline.
module Comments {
  import opened Wrappers
  import opened Text

  // Lazy `.*?\*/` from offset `j`: end of the first star-slash reached before any newline.
  function CloseFrom(s: string, j: nat): (r: Option<nat>)
    ensures r.Some? ==> j + 2 <= r.value <= |s|
    decreases |s| - j
  {
    if j + 2 > |s| then None
    else if s[j] == '*' && s[j + 1] == '/' then Some(j + 2)
    else if s[j] == '\n' then None
    else CloseFrom(s, j + 1)
  }

  /** End of the comment the regex matches at offset `p`, if one starts there. */
  function CommentEndAt(s: string, p: nat): (r: Option<nat>)
    ensures r.Some? ==> p + 4 <= r.value <= |s|
  {
    if StartsWithAt(s, p, "/*") then CloseFrom(s, p + 2) else None
  }

  // `s[p..e]` is a comment as the regex reads it: slash-star, then characters
  // none of which is a newline and among which no star-slash occurs, then star-slash.
  ghost predicate IsComment(s: string, p: nat, e: nat) {
    && p + 4 <= e <= |s|
    && StartsWithAt(s, p, "/*")
    && StartsWithAt(s, e - 2, "*/")
    && (forall j :: p + 2 <= j < e - 2 ==> s[j] != '\n')
    && (forall j :: p + 2 <= j < e - 2 ==> !StartsWithAt(s, j, "*/"))
  }

  lemma {:induction false} CloseFromIff(s: string, j: nat, e: nat)
    requires j <= |s|
    ensures CloseFrom(s, j) == Some(e) <==>
      && j + 2 <= e <= |s|
      && StartsWithAt(s, e - 2, "*/")
      && (forall k :: j <= k < e - 2 ==> s[k] != '\n')
      && (forall k :: j <= k < e - 2 ==> !StartsWithAt(s, k, "*/"))
    decreases |s| - j
  {
    if j + 2 > |s| {
    } else if s[j] == '*' && s[j + 1] == '/' {
      assert StartsWithAt(s, j, "*/");
    } else if s[j] == '\n' {
    } else {
      assert !StartsWithAt(s, j, "*/");
      CloseFromIff(s, j + 1, e);
    }
  }

  /** The matcher finds exactly the comments the declarative reading describes. */
  lemma CommentEndAtIff(s: string, p: nat, e: nat)
    ensures CommentEndAt(s, p) == Some(e) <==> IsComment(s, p, e)
  {
    if StartsWithAt(s, p, "/*") {
      CloseFromIff(s, p + 2, e);
    }
  }

  /** A comment never runs past the end of its line. */
  lemma CommentStaysOnOneLine(s: string, p: nat, e: nat)
    requires CommentEndAt(s, p) == Some(e)
    ensures forall j :: p <= j < e ==> s[j] != '\n'
  {
    CommentEndAtIff(s, p, e);
    assert s[p..p + 2] == "/*" && s[e - 2..e] == "*/";
    assert s[p] == '/' && s[p + 1] == '*' && s[e - 2] == '*' && s[e - 1] == '/';
  }
}
