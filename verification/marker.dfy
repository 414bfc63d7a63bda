/**
 The "already resolved" marker that makes the rewrite engine run at most
 once per stylesheet: inserted after a leading `@charset` rule (which must
 stay the first thing in the file) or at the very start, and detected the
 same way.
 */
module Marker {
  import opened Text
  import opened Encoding

  const AlreadyParsedMarker: string := "/* Filer urls already resolved */"

  /**
   `_insert_already_parsed_marker`: without a leading charset rule the result
   is the marker, a newline and the content; with one, the rule stays first,
   the marker follows it directly and the rest of the content is unchanged.
   */
  function InsertMarker(content: string): (r: string)
    ensures CharsetEnd(content).None? ==> r == AlreadyParsedMarker + "\n" + content
    ensures CharsetEnd(content).Some? ==>
      var e := CharsetEnd(content).value;
      |r| == |content| + |AlreadyParsedMarker| && r[..e] == content[..e] && StartsWithAt(r, e, AlreadyParsedMarker) &&
      r[e + |AlreadyParsedMarker|..] == content[e..]
  {
    match CharsetEnd(content)
    case None => AlreadyParsedMarker + "\n" + content
    case Some(e) =>
      var r := content[..e] + AlreadyParsedMarker + content[e..];
      assert r[e..e + |AlreadyParsedMarker|] == AlreadyParsedMarker;
      r
  }

  /**
   `_is_already_parsed`: the marker follows a leading charset rule or opens
   the content. The optional group of the regex is tried first and dropped
   when the marker does not follow it.
   */
  predicate IsAlreadyParsed(content: string) {
    || (CharsetEnd(content).Some? && StartsWithAt(content, CharsetEnd(content).value, AlreadyParsedMarker))
    || StartsWith(content, AlreadyParsedMarker)
  }

  /** Detection recognises every insertion. */
  lemma MarkerRoundTrip(content: string)
    ensures IsAlreadyParsed(InsertMarker(content))
  {
    var r := InsertMarker(content);
    match CharsetEnd(content)
    case None =>
      assert r[..|AlreadyParsedMarker|] == AlreadyParsedMarker;
    case Some(e) =>
      CharsetEndOfPrefix(content, AlreadyParsedMarker + content[e..]);
      assert r == content[..e] + (AlreadyParsedMarker + content[e..]);
  }

  /** Content that neither opens with a charset rule nor with the marker is not marked. */
  lemma PlainContentNotMarked(content: string)
    requires !StartsWith(content, CharsetOpen) && !StartsWith(content, AlreadyParsedMarker)
    ensures !IsAlreadyParsed(content)
  {
  }
}
