/**
 How a stylesheet's character encoding is chosen, following the rules of
 section 4.4 of CSS 2.1 ("CSS style sheet representation"): a byte-order
 mark first, then a `@charset "X";` rule at the very start, then utf-8.

 Raw content is a Python 2 byte string, one character per byte.
 */
module Encoding {
  import opened Wrappers
  import opened Text

  const BomUtf8: string := ['\U{EF}', '\U{BB}', '\U{BF}']
  const BomUtf16Le: string := ['\U{FF}', '\U{FE}']
  const BomUtf16Be: string := ['\U{FE}', '\U{FF}']
  const BomUtf32Le: string := ['\U{FF}', '\U{FE}', '\0', '\0']
  const BomUtf32Be: string := ['\0', '\0', '\U{FE}', '\U{FF}']

  /** The byte-order marks the code recognises and the codec each selects. */
  const BomTable: seq<(string, string)> := [
    (BomUtf8, "utf-8-sig"),
    (BomUtf16Le, "utf-16"),
    (BomUtf16Be, "utf-16"),
    (BomUtf32Le, "utf-32"),
    (BomUtf32Be, "utf-32")
  ]

  /**
   The table is a Python dict whose iteration order is not part of the
   program; any ordering of its entries is possible.
   */
  predicate IsIterationOrder(order: seq<(string, string)>) {
    multiset(order) == multiset(BomTable)
  }

  /** The first entry, in `order`, whose mark begins `content`. */
  function FirstBom(content: string, order: seq<(string, string)>): (r: Option<string>)
    ensures r.Some? ==> exists k :: 0 <= k < |order| && StartsWith(content, order[k].0) && order[k].1 == r.value
    ensures r.None? <==> forall k :: 0 <= k < |order| ==> !StartsWith(content, order[k].0)
  {
    if |order| == 0 then None
    else if StartsWith(content, order[0].0) then Some(order[0].1)
    else
      var r := FirstBom(content, order[1..]);
      assert forall k :: 1 <= k < |order| ==> order[k] == order[1..][k - 1];
      r
  }

  /**
   `_get_encoding_from_bom`: the codec of a recognised mark that begins the
   content, or nothing when none does.
   */
  function EncodingFromBom(content: string, order: seq<(string, string)>): (r: Option<string>)
    requires IsIterationOrder(order)
    ensures r.Some? ==> exists entry :: entry in BomTable && StartsWith(content, entry.0) && entry.1 == r.value
    ensures r.None? <==> forall entry :: entry in BomTable ==> !StartsWith(content, entry.0)
  {
    var r := FirstBom(content, order);
    assert forall entry :: entry in order <==> entry in BomTable by {
      forall entry ensures entry in order <==> entry in BomTable {
        assert entry in order <==> entry in multiset(order);
        assert entry in BomTable <==> entry in multiset(BomTable);
      }
    }
    r
  }

  /** A UTF-8 mark selects `utf-8-sig` whatever the dict's iteration order. */
  lemma Utf8BomWins(content: string, order: seq<(string, string)>)
    requires IsIterationOrder(order) && StartsWith(content, BomUtf8)
    ensures EncodingFromBom(content, order) == Some("utf-8-sig")
  {
    var r := EncodingFromBom(content, order);
    assert content[0] == '\U{EF}';
    assert StartsWith(content, BomUtf8) && (BomUtf8, "utf-8-sig") in BomTable;
    forall entry | entry in BomTable && StartsWith(content, entry.0)
      ensures entry.1 == "utf-8-sig"
    {
      assert entry.0[0] == content[0];
    }
  }

  /**
   The UTF-32LE mark begins with the UTF-16LE mark, so for such content
   the winner depends on the iteration order: either codec can be chosen.
   */
  lemma Utf32LeDependsOnOrder(content: string)
    requires StartsWith(content, BomUtf32Le)
    ensures EncodingFromBom(content, BomTable) == Some("utf-16")
    ensures var order := [BomTable[3], BomTable[0], BomTable[1], BomTable[2], BomTable[4]];
            IsIterationOrder(order) && EncodingFromBom(content, order) == Some("utf-32")
  {
    Utf32LeInTableOrder(content);
    Utf32LeFirst(content);
  }

  lemma Utf32LeInTableOrder(content: string)
    requires StartsWith(content, BomUtf32Le)
    ensures EncodingFromBom(content, BomTable) == Some("utf-16")
  {
    assert content[..2] == content[..4][..2];
    assert StartsWith(content, BomUtf16Le);
    assert !StartsWith(content, BomUtf8) by { assert content[0] == '\U{FF}'; }
    assert FirstBom(content, BomTable[1..]) == Some("utf-16");
    assert FirstBom(content, BomTable) == Some("utf-16");
  }

  lemma Utf32LeFirst(content: string)
    requires StartsWith(content, BomUtf32Le)
    ensures var order := [BomTable[3], BomTable[0], BomTable[1], BomTable[2], BomTable[4]];
            IsIterationOrder(order) && EncodingFromBom(content, order) == Some("utf-32")
  {
    var order := [BomTable[3], BomTable[0], BomTable[1], BomTable[2], BomTable[4]];
    Utf32LeFirstIsAnOrder();
    assert order[0] == (BomUtf32Le, "utf-32");
    assert FirstBom(content, order) == Some("utf-32");
  }

  /** Moving the UTF-32LE entry to the front is one of the dict's possible orders. */
  lemma Utf32LeFirstIsAnOrder()
    ensures IsIterationOrder([BomTable[3], BomTable[0], BomTable[1], BomTable[2], BomTable[4]])
  {
    assert BomTable == [BomTable[0], BomTable[1], BomTable[2], BomTable[3], BomTable[4]];
  }

  const CharsetOpen: string := "@charset \""

  /**
   End of the match of `@charset "[^"]*";` at the start of `s`: the name
   runs to the first `"` after the opening one, which `;` must follow.
   */
  function CharsetEnd(s: string): (r: Option<nat>)
    ensures r.Some? ==> 12 <= r.value <= |s|
  {
    if StartsWith(s, CharsetOpen) then
      match FindFirst(s, 10, {'"'})
      case Some(q) => if q + 1 < |s| && s[q + 1] == ';' then Some(q + 2) else None
      case None => None
    else None
  }

  /** `s[..e]` is `@charset "`, a name without `"`, then `";`. */
  ghost predicate IsCharsetRule(s: string, e: nat) {
    && 12 <= e <= |s|
    && StartsWith(s, CharsetOpen)
    && s[e - 2] == '"' && s[e - 1] == ';'
    && (forall j :: 10 <= j < e - 2 ==> s[j] != '"')
  }

  lemma CharsetEndIff(s: string, e: nat)
    ensures CharsetEnd(s) == Some(e) <==> IsCharsetRule(s, e)
  {
    if IsCharsetRule(s, e) {
      assert FindFirst(s, 10, {'"'}) == Some(e - 2);
    }
  }

  /** The charset name the rule declares: group 1 of the regex. */
  function CharsetName(s: string): string
    requires CharsetEnd(s).Some?
  {
    s[10..CharsetEnd(s).value - 2]
  }

  /** A rule written for a quote-free name is read back with that name. */
  lemma CharsetRuleRoundTrip(name: string, rest: string)
    requires '"' !in name
    ensures var s := CharsetOpen + name + "\";" + rest;
            CharsetEnd(s) == Some(12 + |name|) && CharsetName(s) == name
  {
    var s := CharsetOpen + name + "\";" + rest;
    assert s[..10] == CharsetOpen;
    assert forall j :: 10 <= j < 10 + |name| ==> s[j] == name[j - 10];
    assert s[10 + |name|] == '"' && s[11 + |name|] == ';';
    CharsetEndIff(s, 12 + |name|);
    assert s[10..10 + |name|] == name;
  }

  /** Whether a rule matches depends only on the text up to its end. */
  lemma CharsetEndOfPrefix(s: string, t: string)
    requires CharsetEnd(s).Some?
    ensures CharsetEnd(s[..CharsetEnd(s).value] + t) == CharsetEnd(s)
    ensures CharsetName(s[..CharsetEnd(s).value] + t) == CharsetName(s)
  {
    var e := CharsetEnd(s).value;
    var u := s[..e] + t;
    CharsetEndIff(s, e);
    assert u[..10] == s[..10];
    assert forall j :: 0 <= j < e ==> u[j] == s[j];
    CharsetEndIff(u, e);
    assert u[10..e - 2] == s[10..e - 2];
  }

  /** `ValueError('Css %s specifies invalid charset %s')`. */
  datatype CharsetError = InvalidCharset(cssName: string, charset: string)

  /**
   `_get_css_encoding`: a recognised mark decides; otherwise a leading
   charset rule decides, and a name the codec registry does not know is an
   error; otherwise utf-8.
   */
  function CssEncoding(content: string, cssName: string, known: string -> bool, order: seq<(string, string)>)
    : (r: Result<string, CharsetError>)
    requires IsIterationOrder(order)
    ensures EncodingFromBom(content, order).Some? ==> r == Success(EncodingFromBom(content, order).value)
    ensures r.Failure? <==>
      EncodingFromBom(content, order).None? && CharsetEnd(content).Some? && !known(CharsetName(content))
    ensures r.Failure? ==> r.error == InvalidCharset(cssName, CharsetName(content))
    ensures EncodingFromBom(content, order).None? && CharsetEnd(content).Some? && r.Success? ==>
      r.value == CharsetName(content)
    ensures EncodingFromBom(content, order).None? && CharsetEnd(content).None? ==> r == Success("utf-8")
  {
    match EncodingFromBom(content, order)
    case Some(e) => Success(e)
    case None =>
      if CharsetEnd(content).Some? then
        var name := CharsetName(content);
        if known(name) then Success(name) else Failure(InvalidCharset(cssName, name))
      else Success("utf-8")
  }

  /**
   A stylesheet that opens with `@charset "X";` for a known quote-free `X`
   is read as `X`: no byte-order mark can begin with `@`.
   */
  lemma DeclaredCharsetChosen(name: string, rest: string, cssName: string, known: string -> bool,
                              order: seq<(string, string)>)
    requires IsIterationOrder(order) && '"' !in name && known(name)
    ensures CssEncoding(CharsetOpen + name + "\";" + rest, cssName, known, order) == Success(name)
  {
    var s := CharsetOpen + name + "\";" + rest;
    CharsetRuleRoundTrip(name, rest);
    assert s[0] == '@';
    forall entry | entry in BomTable ensures !StartsWith(s, entry.0) {
      assert |entry.0| >= 2 && entry.0[0] != '@';
    }
  }
}
