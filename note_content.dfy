/** The `note_content` pattern of the SD-card sync
    (SdCardSyncService.java line 54), `<note-content[^>]+>(.*)</note-content>`
    compiled with CASE_INSENSITIVE and DOTALL, and what `find()` followed by
    `group(1)` returns for it (lines 217-219). */
module NoteContent {

  import opened Wrappers

  /** The opening tag's fixed part. */
  const OpenTag: string := "<note-content"

  /** The closing tag. */
  const CloseTag: string := "</note-content>"

  /** CASE_INSENSITIVE without UNICODE_CASE folds US-ASCII letters only. */
  function LowerAscii(c: char): (r: char)
    ensures r == c || ('A' <= c <= 'Z' && 'a' <= r <= 'z')
  {
    if 'A' <= c <= 'Z' then (c as int + 32) as char else c
  }

  /** `lit` (lower case) occurs at `i`, ignoring the case of ASCII letters. */
  predicate OccursIgnoringCase(s: string, i: nat, lit: string)
  {
    i + |lit| <= |s| && forall k :: 0 <= k < |lit| ==> LowerAscii(s[i + k]) == lit[k]
  }

  predicate OpenAt(s: string, i: nat)
  {
    OccursIgnoringCase(s, i, OpenTag)
  }

  predicate CloseAt(s: string, e: nat)
  {
    OccursIgnoringCase(s, e, CloseTag)
  }

  /** The first `>` at or after `from`, or `|s|`. */
  function FirstGt(s: string, from: nat): (j: nat)
    requires from <= |s|
    ensures from <= j <= |s|
    ensures forall k :: from <= k < j ==> s[k] != '>'
    ensures j < |s| ==> s[j] == '>'
    decreases |s| - from
  {
    if from == |s| || s[from] == '>' then from else FirstGt(s, from + 1)
  }

  /** The pattern matches with the opening tag at `i`, the `>` that ends it
      at `j` and the closing tag at `e`. Since `[^>]` cannot take a `>`, the
      run `[^>]+` (at least one character) stops at the first `>`; group 1
      is everything strictly between `j` and `e`. */
  ghost predicate IsMatch(s: string, i: nat, j: nat, e: nat)
  {
    OpenAt(s, i) && CloseAt(s, e) && i + |OpenTag| < j < e && s[j] == '>' &&
    (forall k :: i + |OpenTag| <= k < j ==> s[k] != '>')
  }

  ghost predicate NoMatch(s: string)
  {
    forall i: nat, j: nat, e: nat :: !IsMatch(s, i, j, e)
  }

  /** The match `find()` reports: the leftmost opening tag, and for it the
      LAST closing tag, since DOTALL lets the greedy `(.*)` run over
      newlines and earlier closing tags. */
  ghost predicate FirstMatch(s: string, i: nat, j: nat, e: nat)
  {
    IsMatch(s, i, j, e) &&
    (forall i': nat, j': nat, e': nat :: IsMatch(s, i', j', e') ==> i <= i') &&
    (forall j': nat, e': nat :: IsMatch(s, i, j', e') ==> e' <= e)
  }

  /** The tag's `>` is determined by where the tag starts. */
  lemma GtDetermined(s: string, i: nat, j: nat, e: nat, j': nat, e': nat)
    requires IsMatch(s, i, j, e) && IsMatch(s, i, j', e')
    ensures j == j'
  {
    if j < j' {
      assert false;
    } else if j' < j {
      assert false;
    }
  }

  /** The largest `e` in `lo..hi` at which a closing tag starts. */
  function LastClose(s: string, lo: nat, hi: int): (r: Option<nat>)
    ensures r.Some? ==> lo <= r.value <= hi && CloseAt(s, r.value)
    ensures r.Some? ==> forall e: nat :: r.value < e <= hi ==> !CloseAt(s, e)
    ensures r.None? ==> forall e: nat :: lo <= e <= hi ==> !CloseAt(s, e)
    decreases hi - lo
  {
    if hi < lo then None
    else if CloseAt(s, hi) then Some(hi)
    else LastClose(s, lo, hi - 1)
  }

  /** With the opening tag at `i`: its `>` and the end of group 1. */
  function CloseAfter(s: string, i: nat): (r: Option<(nat, nat)>)
    requires OpenAt(s, i)
    ensures r.Some? ==> IsMatch(s, i, r.value.0, r.value.1)
    ensures r.Some? ==> forall j: nat, e: nat :: IsMatch(s, i, j, e) ==> e <= r.value.1
    ensures r.None? ==> forall j: nat, e: nat :: !IsMatch(s, i, j, e)
  {
    var j := FirstGt(s, i + |OpenTag|);
    if i + |OpenTag| < j < |s| then
      assert forall j': nat, e: nat :: IsMatch(s, i, j', e) ==> j' == j && e <= |s| - |CloseTag|;
      match LastClose(s, j + 1, |s| - |CloseTag|)
      case None => None
      case Some(e) => Some((j, e))
    else
      None
  }

  /** The leftmost opening tag at or after `from` that starts a match. */
  function FindFrom(s: string, from: nat): (r: Option<(nat, nat, nat)>)
    ensures r.None? ==> forall i: nat, j: nat, e: nat :: from <= i ==> !IsMatch(s, i, j, e)
    ensures r.Some? ==> from <= r.value.0 && IsMatch(s, r.value.0, r.value.1, r.value.2)
    ensures r.Some? ==> forall i: nat, j: nat, e: nat :: from <= i < r.value.0 ==> !IsMatch(s, i, j, e)
    ensures r.Some? ==> forall j: nat, e: nat :: IsMatch(s, r.value.0, j, e) ==> e <= r.value.2
    decreases |s| - from
  {
    if |s| < from + |OpenTag| then None
    else if OpenAt(s, from) && CloseAfter(s, from).Some? then
      Some((from, CloseAfter(s, from).value.0, CloseAfter(s, from).value.1))
    else FindFrom(s, from + 1)
  }

  /** What the worker stores as the note's XML content for file contents
      `s`: group 1 of the match `find()` reports, or `None` when there is
      no match (the worker then reports a parsing failure). */
  function Extract(s: string): (r: Option<string>)
    ensures r.None? <==> NoMatch(s)
  {
    match FindFrom(s, 0)
    case None => None
    case Some((i, j, e)) => Some(s[j + 1..e])
  }

  /** `find()` reports one match only. */
  lemma FirstMatchUnique(s: string, i: nat, j: nat, e: nat, i': nat, j': nat, e': nat)
    requires FirstMatch(s, i, j, e) && FirstMatch(s, i', j', e')
    ensures i == i' && j == j' && e == e'
  {
    GtDetermined(s, i, j, e, j', e');
  }

  /** Whichever match satisfies the leftmost-then-greedy rule is the one
      extracted. */
  lemma ExtractIsFirstMatch(s: string, i: nat, j: nat, e: nat)
    requires FirstMatch(s, i, j, e)
    ensures Extract(s) == Some(s[j + 1..e])
  {
    var r := FindFrom(s, 0);
    assert r.Some?;
    var (i', j', e') := r.value;
    assert FirstMatch(s, i', j', e');
    FirstMatchUnique(s, i, j, e, i', j', e');
  }

  // ---------------------------------------------------------------------
  // Properties
  // ---------------------------------------------------------------------

  lemma LiteralOccurs(s: string, i: nat, lit: string)
    requires i + |lit| <= |s| && s[i..i + |lit|] == lit
    requires forall k :: 0 <= k < |lit| ==> LowerAscii(lit[k]) == lit[k]
    ensures OccursIgnoringCase(s, i, lit)
  {
    forall k | 0 <= k < |lit|
      ensures LowerAscii(s[i + k]) == lit[k]
    {
      assert s[i + k] == s[i..i + |lit|][k];
    }
  }

  /** A tag needs a `<`; only the first character of either tag is one. */
  lemma TagsStartWithAngle(s: string, i: nat)
    ensures OpenAt(s, i) ==> s[i] == '<'
    ensures CloseAt(s, i) ==> s[i] == '<'
  {
    if OpenAt(s, i) {
      assert LowerAscii(s[i]) == OpenTag[0];
    }
    if CloseAt(s, i) {
      assert LowerAscii(s[i]) == CloseTag[0];
    }
  }

  /** No tag starts where there is no `<`. */
  lemma NoTagWithoutAngle(s: string, lo: nat, hi: nat)
    requires forall k :: lo <= k < hi && k < |s| ==> s[k] != '<'
    ensures forall i: nat :: lo <= i < hi ==> !OpenAt(s, i) && !CloseAt(s, i)
  {
    forall i: nat | lo <= i < hi
      ensures !OpenAt(s, i) && !CloseAt(s, i)
    {
      TagsStartWithAngle(s, i);
    }
  }

  /** The tags are written in lower case, so they occur in themselves. */
  lemma TagsAreLowerCase()
    ensures forall k :: 0 <= k < |OpenTag| ==> LowerAscii(OpenTag[k]) == OpenTag[k]
    ensures forall k :: 0 <= k < |CloseTag| ==> LowerAscii(CloseTag[k]) == CloseTag[k]
  {
  }

  /** The closing tag holds no `<` after its first character. */
  lemma CloseTagOneAngle()
    ensures forall k :: 1 <= k < |CloseTag| ==> CloseTag[k] != '<'
  {
  }

  /** The body ends at the last closing tag when nothing tag-like follows
      the one at `e`. */
  lemma NoLaterClose(s: string, e: nat)
    requires e + |CloseTag| <= |s| && s[e..e + |CloseTag|] == CloseTag
    requires forall k :: e + |CloseTag| <= k < |s| ==> s[k] != '<'
    ensures forall e': nat :: e < e' ==> !CloseAt(s, e')
  {
    CloseTagOneAngle();
    forall e': nat | e < e'
      ensures !CloseAt(s, e')
    {
      TagsStartWithAngle(s, e');
      if e' < e + |CloseTag| {
        assert s[e'] == s[e..e + |CloseTag|][e' - e];
      }
    }
  }

  /** The usual shape of a `.note` file: nothing tag-like before the
      opening tag, attributes without `>`, and nothing tag-like after the
      closing tag. Then the whole body between the tags is extracted,
      whatever it holds (newlines, other tags, even a closing tag). */
  lemma ExtractWrapped(pre: string, attrs: string, body: string, post: string)
    requires '<' !in pre && '<' !in post
    requires |attrs| > 0 && '>' !in attrs
    ensures Extract(pre + OpenTag + attrs + ">" + body + CloseTag + post) == Some(body)
  {
    ExtractWrappedText(pre + OpenTag + attrs + ">" + body + CloseTag + post, pre, attrs, body, post);
  }

  lemma ExtractWrappedText(s: string, pre: string, attrs: string, body: string, post: string)
    requires s == pre + OpenTag + attrs + ">" + body + CloseTag + post
    requires '<' !in pre && '<' !in post
    requires |attrs| > 0 && '>' !in attrs
    ensures Extract(s) == Some(body)
  {
    WrappedMatches(s, pre, attrs, body, post);
    WrappedEdges(s, pre, attrs, body, post);
    WrappedBody(s, pre, attrs, body, post);
    ExtractBodyBetweenPlainText(s, |pre|, |pre| + |OpenTag| + |attrs|, |pre| + |OpenTag| + |attrs| + 1 + |body|, body);
  }

  lemma ExtractBodyBetweenPlainText(s: string, i: nat, j: nat, e: nat, body: string)
    requires IsMatch(s, i, j, e)
    requires forall k :: 0 <= k < i ==> s[k] != '<'
    requires e + |CloseTag| <= |s| && s[e..e + |CloseTag|] == CloseTag
    requires forall k :: e + |CloseTag| <= k < |s| ==> s[k] != '<'
    requires s[j + 1..e] == body
    ensures Extract(s) == Some(body)
  {
    ExtractBetweenPlainText(s, i, j, e);
  }

  lemma WrappedEdges(s: string, pre: string, attrs: string, body: string, post: string)
    requires s == pre + OpenTag + attrs + ">" + body + CloseTag + post
    requires '<' !in pre && '<' !in post
    ensures forall k :: 0 <= k < |pre| ==> s[k] != '<'
    ensures var e := |pre| + |OpenTag| + |attrs| + 1 + |body|;
      e + |CloseTag| <= |s| && s[e..e + |CloseTag|] == CloseTag &&
      forall k :: e + |CloseTag| <= k < |s| ==> s[k] != '<'
  {
    var x := pre + OpenTag + attrs + ">" + body + CloseTag;
    assert s == x + post;
    assert forall k :: 0 <= k < |pre| ==> s[k] == pre[k];
    assert forall k :: |x| <= k < |s| ==> s[k] == post[k - |x|];
    assert s[..|x|] == x;
    assert x[|x| - |CloseTag|..] == CloseTag;
  }

  lemma WrappedBody(s: string, pre: string, attrs: string, body: string, post: string)
    requires s == pre + OpenTag + attrs + ">" + body + CloseTag + post
    ensures |pre| + |OpenTag| + |attrs| + 1 + |body| <= |s|
    ensures s[|pre| + |OpenTag| + |attrs| + 1..|pre| + |OpenTag| + |attrs| + 1 + |body|] == body
  {
    var y := pre + OpenTag + attrs + ">";
    assert s == y + body + CloseTag + post;
  }

  /** A match with no `<` before its opening tag or after its closing tag
      is the one extracted. */
  lemma ExtractBetweenPlainText(s: string, i: nat, j: nat, e: nat)
    requires IsMatch(s, i, j, e)
    requires forall k :: 0 <= k < i ==> s[k] != '<'
    requires e + |CloseTag| <= |s| && s[e..e + |CloseTag|] == CloseTag
    requires forall k :: e + |CloseTag| <= k < |s| ==> s[k] != '<'
    ensures Extract(s) == Some(s[j + 1..e])
  {
    NoTagWithoutAngle(s, 0, i);
    NoLaterClose(s, e);
    assert FirstMatch(s, i, j, e);
    ExtractIsFirstMatch(s, i, j, e);
  }

  /** In the usual shape, the tags where they were put form a match. */
  lemma WrappedMatches(s: string, pre: string, attrs: string, body: string, post: string)
    requires s == pre + OpenTag + attrs + ">" + body + CloseTag + post
    requires |attrs| > 0 && '>' !in attrs
    ensures IsMatch(s, |pre|, |pre| + |OpenTag| + |attrs|, |pre| + |OpenTag| + |attrs| + 1 + |body|)
  {
    var i := |pre|;
    var j := i + |OpenTag| + |attrs|;
    var e := j + 1 + |body|;
    TagsAreLowerCase();
    assert s[i..i + |OpenTag|] == OpenTag;
    LiteralOccurs(s, i, OpenTag);
    assert s[e..e + |CloseTag|] == CloseTag;
    LiteralOccurs(s, e, CloseTag);
    assert forall k :: i + |OpenTag| <= k < j ==> s[k] == attrs[k - i - |OpenTag|];
  }

  /** An opening tag with nothing between `<note-content` and `>` does not
      match, since `[^>]+` needs a character: such a file yields nothing. */
  lemma BareOpenTagNotMatched(body: string)
    requires '<' !in body
    ensures Extract(OpenTag + ">" + body + CloseTag) == None
  {
    BareOpenTagText(OpenTag + ">" + body + CloseTag, body);
  }

  lemma BareOpenTagText(s: string, body: string)
    requires s == OpenTag + ">" + body + CloseTag
    requires '<' !in body
    ensures NoMatch(s)
  {
    var n := |OpenTag| + 1 + |body|;
    assert s[|OpenTag|] == '>';
    assert forall k :: 1 <= k < n ==> s[k] != '<' by {
      assert forall k :: |OpenTag| < k < n ==> s[k] == body[k - |OpenTag| - 1];
      assert s[..|OpenTag|] == OpenTag;
    }
    NoTagWithoutAngle(s, 1, n);
    assert s[n..] == CloseTag;
    CloseTagOneAngle();
    assert forall k :: n < k < |s| ==> s[k] == CloseTag[k - n];
    NoTagWithoutAngle(s, n + 1, |s|);
    assert s[n + 1] == CloseTag[1];
    if OpenAt(s, n) {
      assert LowerAscii(s[n + 1]) == OpenTag[1];
    }
  }

  /** Upper-case tags match as well. */
  lemma UpperCaseTagsMatch()
    ensures OpenAt("<NOTE-CONTENT", 0) && CloseAt("</Note-Content>", 0)
  {
  }
}
