/**
 * Turning the structure model's raw answer into XML (`extract_xml`) and repairing
 * the tag names it is known to get wrong (`clean_malformed_xml`).
 *
 * The block pattern, compiled with DOTALL and IGNORECASE, is: an optional
 * three-backtick `xml` fence followed by whitespace, the opening tag, the shortest
 * run of any characters, the closing tag, and optionally whitespace and a closing
 * three-backtick fence. It is modelled as a scanner that decides the match at one
 * position exactly as the backtracking engine does, and a leftmost search.
 */
module WikiMarkup {
  import opened Outcomes
  import opened Text

  const OpenTag := "<wiki_structure>"
  const CloseTag := "</wiki_structure>"
  /** The optional fence before the block, in lower case (matched ignoring case). */
  const XmlFence := "```xml"
  const Fence := "```"

  /** Index of the first non-whitespace character at or after `i` (what a greedy `\s*` consumes). */
  function SkipSpaces(s: string, i: nat): (j: nat)
    requires i <= |s|
    ensures i <= j <= |s|
    ensures forall k :: i <= k < j ==> IsSpace(s[k])
    ensures j < |s| ==> !IsSpace(s[j])
    decreases |s| - i
  {
    if i < |s| && IsSpace(s[i]) then SkipSpaces(s, i + 1) else i
  }

  /**
   * Where the opening tag of a match starting at `p` stands: after the fence and
   * its whitespace when the fence is there and the tag follows it, otherwise at `p`
   * itself (the optional group is given up), or nowhere.
   */
  function TagStart(s: string, p: nat): (t: Option<nat>)
    ensures t.Some? ==> p <= t.value && OccursAtIgnoreCase(s, OpenTag, t.value)
  {
    if p + |XmlFence| <= |s| && OccursAtIgnoreCase(s, XmlFence, p)
       && OccursAtIgnoreCase(s, OpenTag, SkipSpaces(s, p + |XmlFence|))
    then Some(SkipSpaces(s, p + |XmlFence|))
    else if OccursAtIgnoreCase(s, OpenTag, p) then Some(p)
    else None
  }

  /** End of a match whose closing tag stands at `c`: the trailing fence is taken when it is there. */
  function BlockEnd(s: string, c: nat): (e: nat)
    requires c + |CloseTag| <= |s|
    ensures c + |CloseTag| <= e <= |s|
  {
    var j := SkipSpaces(s, c + |CloseTag|);
    if OccursAt(s, Fence, j) then j + |Fence| else c + |CloseTag|
  }

  /** `c` is the first closing tag at or after `from`, ignoring case: where the lazy `.*?` stops. */
  predicate FirstCloseAt(s: string, from: nat, c: nat) {
    from <= c && OccursAtIgnoreCase(s, CloseTag, c)
    && forall j :: from <= j < c ==> !OccursAtIgnoreCase(s, CloseTag, j)
  }

  /**
   * The end of the block match starting at `p`, if there is one: the opening tag
   * stands where `TagStart` puts it, the lazy `.*?` stops at the first closing tag
   * after it, and the optional trailing fence follows.
   */
  function MatchAt(s: string, p: nat): (e: Option<nat>)
    ensures e.Some? ==> p < e.value <= |s|
    ensures e.None? <==> (TagStart(s, p).None?
      || forall c: nat :: TagStart(s, p).value + |OpenTag| <= c ==> !OccursAtIgnoreCase(s, CloseTag, c))
    ensures e.Some? ==> exists c: nat :: FirstCloseAt(s, TagStart(s, p).value + |OpenTag|, c) && e.value == BlockEnd(s, c)
  {
    match TagStart(s, p)
    case None => None
    case Some(t) =>
      match FindFrom(FoldCase(s), CloseTag, t + |OpenTag|)
      case None => None
      case Some(c) =>
        assert FirstCloseAt(s, t + |OpenTag|, c);
        Some(BlockEnd(s, c))
  }

  /** `pattern.search(s, from)`: the leftmost position at or after `from` where the block matches. */
  function Search(s: string, from: nat): (m: Option<(nat, nat)>)
    ensures m.Some? ==> from <= m.value.0 && MatchAt(s, m.value.0) == Some(m.value.1)
    ensures m.Some? ==> forall j :: from <= j < m.value.0 ==> MatchAt(s, j).None?
    ensures m.None? ==> forall j: nat :: from <= j ==> MatchAt(s, j).None?
    decreases |s| - from
  {
    if from >= |s| then
      assert forall j: nat :: from <= j ==> MatchAt(s, j).None? by {
        forall j: nat | from <= j
          ensures MatchAt(s, j).None?
        {
          NoMatchPastEnd(s, j);
        }
      }
      None
    else if MatchAt(s, from).Some? then Some((from, MatchAt(s, from).value))
    else Search(s, from + 1)
  }

  /** No block starts at the end of the answer or beyond: the opening tag would not fit. */
  lemma NoMatchPastEnd(s: string, j: nat)
    requires |s| <= j
    ensures MatchAt(s, j).None?
  {
    assert !OccursAtIgnoreCase(s, OpenTag, j);
  }

  /** The fallback pattern without the fences, matched at `p`. */
  function FallbackMatchAt(s: string, p: nat): (e: Option<nat>)
    ensures e.Some? ==> p < e.value <= |s|
  {
    if OccursAtIgnoreCase(s, OpenTag, p) then
      match FindFrom(FoldCase(s), CloseTag, p + |OpenTag|)
      case None => None
      case Some(c) => Some(c + |CloseTag|)
    else None
  }

  /** `re.search` with the fallback pattern. */
  function FallbackSearch(s: string, from: nat): (m: Option<(nat, nat)>)
    ensures m.Some? ==> from <= m.value.0 && FallbackMatchAt(s, m.value.0) == Some(m.value.1)
    ensures m.Some? ==> forall j: nat :: from <= j < m.value.0 ==> FallbackMatchAt(s, j).None?
    ensures m.None? ==> forall j: nat :: from <= j ==> FallbackMatchAt(s, j).None?
    decreases |s| - from
  {
    if from >= |s| then None
    else if FallbackMatchAt(s, from).Some? then Some((from, FallbackMatchAt(s, from).value))
    else FallbackSearch(s, from + 1)
  }

  /** The answer holds an opening tag and, after it, a closing tag (both ignoring case). */
  ghost predicate HasBlock(s: string) {
    exists i: nat, j: nat :: i + |OpenTag| <= j && OccursAtIgnoreCase(s, OpenTag, i) && OccursAtIgnoreCase(s, CloseTag, j)
  }

  /** The opening tag cannot stand where the fence does: their first characters differ. */
  lemma TagExcludesFence(s: string, p: nat)
    requires OccursAtIgnoreCase(s, OpenTag, p)
    ensures TagStart(s, p) == Some(p)
  {
    assert FoldCase(s)[p..p + |OpenTag|][0] == '<';
    assert XmlFence[0] == '`';
    if p + |XmlFence| <= |s| {
      assert FoldCase(s)[p..p + |XmlFence|][0] == FoldCase(s)[p];
    }
    if p + |XmlFence| <= |s| && OccursAtIgnoreCase(s, XmlFence, p) {
      assert false;
    }
  }

  /** The block pattern matches somewhere exactly when an opening tag is followed by a closing tag. */
  lemma SearchFindsBlock(s: string)
    ensures Search(s, 0).Some? <==> HasBlock(s)
  {
    if Search(s, 0).Some? {
      var p := Search(s, 0).value.0;
      var t := TagStart(s, p).value;
      var c := FindFrom(FoldCase(s), CloseTag, t + |OpenTag|).value;
      assert OccursAtIgnoreCase(s, CloseTag, c);
    }
    if HasBlock(s) {
      var i: nat, j: nat :| i + |OpenTag| <= j && OccursAtIgnoreCase(s, OpenTag, i) && OccursAtIgnoreCase(s, CloseTag, j);
      TagExcludesFence(s, i);
      assert FindFrom(FoldCase(s), CloseTag, i + |OpenTag|).Some?;
      assert MatchAt(s, i).Some?;
    }
  }

  /**
   * The fallback search inside `extract_xml` can never succeed: wherever it would
   * match, the block pattern matches too, with its optional groups left empty.
   */
  lemma FallbackNeverSucceeds(s: string)
    requires Search(s, 0).None?
    ensures FallbackSearch(s, 0).None?
    ensures ExtractFallback(s) == Err(NoBlockFound(Take(s, SnippetLength)))
  {
    forall j: nat
      ensures FallbackMatchAt(s, j).None?
    {
      if OccursAtIgnoreCase(s, OpenTag, j) {
        TagExcludesFence(s, j);
        assert MatchAt(s, j).None?;
      }
    }
  }

  /** Why `extract_xml` gives up. */
  datatype XmlError =
    | EmptyModelResponse
      /** No block was found; the first 600 characters of the answer are reported. */
    | NoBlockFound(snippet: string)

  /** How many characters of the answer the error message carries. */
  const SnippetLength := 600

  /** The second attempt of `extract_xml`, with the fence-free pattern. */
  function ExtractFallback(text: string): (r: Result<string, XmlError>)
    ensures r.Ok? ==> HasBlock(text) && IsTrimmed(r.value) && |r.value| <= |text|
    ensures r.Err? ==> r.error == NoBlockFound(Take(text, SnippetLength))
  {
    match FallbackSearch(text, 0)
    case Some((a, b)) =>
      var c := FindFrom(FoldCase(text), CloseTag, a + |OpenTag|).value;
      assert OccursAtIgnoreCase(text, CloseTag, c);
      Ok(Strip(text[a..b]))
    case None => Err(NoBlockFound(Take(text, SnippetLength)))
  }

  /**
   * `extract_xml(text)`: the first block of the answer, without surrounding
   * whitespace. The fallback search is kept as written, though it never succeeds.
   */
  function ExtractXml(text: string): (r: Result<string, XmlError>)
    ensures text == [] <==> r == Err(EmptyModelResponse)
    ensures r.Ok? <==> text != [] && HasBlock(text)
    ensures r.Err? && text != [] ==> r.error == NoBlockFound(Take(text, SnippetLength))
    ensures r.Ok? ==> IsTrimmed(r.value) && |r.value| <= |text|
  {
    SearchFindsBlock(text);
    if text == [] then Err(EmptyModelResponse)
    else
      match Search(text, 0)
      case Some((a, b)) => Ok(Strip(text[a..b]))
      case None => ExtractFallback(text)
  }

  /**
   * What `extract_xml` returns on success: the stripped text of the leftmost block
   * match, from the position `a` where no earlier match exists, through the opening
   * tag at `t` and the first closing tag `c` after it, to the end `e` past the
   * optional trailing fence.
   */
  lemma ExtractXmlBlock(text: string) returns (a: nat, t: nat, c: nat, e: nat)
    requires ExtractXml(text).Ok?
    ensures Search(text, 0) == Some((a, e))
    ensures forall j: nat :: j < a ==> MatchAt(text, j).None?
    ensures TagStart(text, a) == Some(t)
    ensures FirstCloseAt(text, t + |OpenTag|, c)
    ensures c + |CloseTag| <= |text| && e == BlockEnd(text, c)
    ensures a <= e <= |text| && ExtractXml(text).value == Strip(text[a..e])
  {
    ExtractXmlIsSearch(text);
    a, e := Search(text, 0).value.0, Search(text, 0).value.1;
    t, c := MatchAtParts(text, a);
  }

  /** On success `extract_xml` strips the span the search finds. */
  lemma ExtractXmlIsSearch(text: string)
    requires ExtractXml(text).Ok?
    ensures Search(text, 0).Some?
    ensures var (a, e) := Search(text, 0).value; a <= e <= |text| && ExtractXml(text).value == Strip(text[a..e])
  {
    SearchFindsBlock(text);
  }

  /** The opening tag and the first closing tag of a match. */
  lemma MatchAtParts(s: string, p: nat) returns (t: nat, c: nat)
    requires MatchAt(s, p).Some?
    ensures TagStart(s, p) == Some(t)
    ensures FirstCloseAt(s, t + |OpenTag|, c)
    ensures c + |CloseTag| <= |s| && MatchAt(s, p) == Some(BlockEnd(s, c))
  {
    t := TagStart(s, p).value;
    c := FindFrom(FoldCase(s), CloseTag, t + |OpenTag|).value;
  }

  /** A tag that starts with `<` and ends with `>` survives `strip()`, with case folded alike. */
  lemma TagSurvivesStrip(s: string, tag: string, i: nat)
    requires |tag| >= 2 && tag[0] == '<' && tag[|tag| - 1] == '>'
    requires OccursAtIgnoreCase(s, tag, i)
    ensures Contains(FoldCase(Strip(s)), tag)
  {
    var a, b := StripSlice(s);
    TagInside(s, a, b, tag, i);
    OccursInSlice(FoldCase(s), tag, i, a, b);
    FoldCaseSlice(s, a, b);
    assert OccursAt(FoldCase(Strip(s)), tag, i - a);
  }

  /** A tag lies inside what `strip()` keeps: its brackets are not whitespace. */
  lemma TagInside(s: string, a: nat, b: nat, tag: string, i: nat)
    requires a <= b <= |s|
    requires forall k :: 0 <= k < a ==> IsSpace(s[k])
    requires forall k :: b <= k < |s| ==> IsSpace(s[k])
    requires |tag| >= 2 && tag[0] == '<' && tag[|tag| - 1] == '>'
    requires OccursAtIgnoreCase(s, tag, i)
    ensures a <= i && i + |tag| <= b
  {
    var j := i + |tag| - 1;
    OccursEnds(FoldCase(s), tag, i);
    BracketNotSpace(s[i]);
    BracketNotSpace(s[j]);
    InsideStrip(s, a, b, i);
    InsideStrip(s, a, b, j);
  }

  /** An occurrence begins with the text's first character and ends with its last. */
  lemma OccursEnds(f: string, t: string, i: nat)
    requires t != [] && OccursAt(f, t, i)
    ensures f[i] == t[0] && f[i + |t| - 1] == t[|t| - 1]
  {
    assert f[i..i + |t|][0] == f[i];
    assert f[i..i + |t|][|t| - 1] == f[i + |t| - 1];
  }

  /** An occurrence inside `a..b` is an occurrence in the slice, shifted by `a`. */
  lemma OccursInSlice(f: string, t: string, i: nat, a: nat, b: nat)
    requires a <= i && i + |t| <= b <= |f| && OccursAt(f, t, i)
    ensures OccursAt(f[a..b], t, i - a)
  {
    var u := f[a..b][i - a..i - a + |t|];
    var v := f[i..i + |t|];
    assert forall k :: 0 <= k < |t| ==> u[k] == v[k];
    assert u == v;
  }

  /** Angle brackets, and the characters that fold to them, are not whitespace. */
  lemma BracketNotSpace(c: char)
    requires FoldChar(c) == '<' || FoldChar(c) == '>'
    ensures !IsSpace(c)
  {
  }

  /** A character that is not whitespace lies inside what `strip()` keeps. */
  lemma InsideStrip(s: string, a: nat, b: nat, i: nat)
    requires a <= b <= |s|
    requires forall k :: 0 <= k < a ==> IsSpace(s[k])
    requires forall k :: b <= k < |s| ==> IsSpace(s[k])
    requires i < |s| && !IsSpace(s[i])
    ensures a <= i < b
  {
  }

  /** A tag that lies between `a` and `b` survives slicing there and stripping. */
  lemma TagSurvivesSlice(text: string, a: nat, b: nat, tag: string, i: nat)
    requires a <= i && i + |tag| <= b <= |text|
    requires |tag| >= 2 && tag[0] == '<' && tag[|tag| - 1] == '>'
    requires OccursAtIgnoreCase(text, tag, i)
    ensures Contains(FoldCase(Strip(text[a..b])), tag)
  {
    FoldCaseSlice(text, a, b);
    assert FoldCase(text[a..b])[i - a..i - a + |tag|] == FoldCase(text)[i..i + |tag|];
    TagSurvivesStrip(text[a..b], tag, i - a);
  }

  /** The extracted block, read ignoring case, holds both tags of the structure document. */
  lemma ExtractedBlockHasTags(text: string)
    requires ExtractXml(text).Ok?
    ensures Contains(FoldCase(ExtractXml(text).value), OpenTag)
    ensures Contains(FoldCase(ExtractXml(text).value), CloseTag)
  {
    SearchFindsBlock(text);
    var (a, b) := Search(text, 0).value;
    assert ExtractXml(text) == Ok(Strip(text[a..b]));
    var t := TagStart(text, a).value;
    var c := FindFrom(FoldCase(text), CloseTag, t + |OpenTag|).value;
    TagSurvivesSlice(text, a, b, OpenTag, t);
    TagSurvivesSlice(text, a, b, CloseTag, c);
  }

  // ---------------------------------------------------------------------------
  // clean_malformed_xml
  // ---------------------------------------------------------------------------

  /** The known misspelt tag names and their corrections, in the dictionary's insertion order. */
  const TagCorrections: seq<(string, string)> := [
    ("page-ref", "page_ref"),
    ("file-path", "file_path"),
    ("related-page", "related"),
    ("section-ref", "section_ref"),
    ("data-models", "data_models"),
    ("javascript-integration", "javascript_integration"),
    ("session-management", "session_management"),
    ("customizing-flask", "customizing_flask")
  ]

  function OpeningOf(name: string): string { "<" + name + ">" }
  function ClosingOf(name: string): string { "</" + name + ">" }

  /** Both substitutions for one entry: opening tags first, then closing tags. */
  function RenameTag(s: string, wrong: string, right: string): string {
    ReplaceAll(ReplaceAll(s, OpeningOf(wrong), OpeningOf(right)), ClosingOf(wrong), ClosingOf(right))
  }

  /** The entries of `fixes` applied one after the other. */
  function RenameTags(s: string, fixes: seq<(string, string)>): string
    decreases |fixes|
  {
    if fixes == [] then s
    else
      var last := fixes[|fixes| - 1];
      RenameTag(RenameTags(s, fixes[..|fixes| - 1]), last.0, last.1)
  }

  /** The doubly escaped angle brackets become plain ones. */
  function CollapseEntities(s: string): string {
    ReplaceAll(ReplaceAll(s, "&amp;amp;lt;", "<"), "&amp;amp;gt;", ">")
  }

  /** What `clean_malformed_xml` computes. */
  function Cleaned(s: string): string {
    CollapseEntities(RenameTags(s, TagCorrections))
  }

  /** `clean_malformed_xml(xml_text)`. */
  method CleanMalformedXml(xmlText: string) returns (r: string)
    ensures r == Cleaned(xmlText)
  {
    r := xmlText;
    for i := 0 to |TagCorrections|
      invariant r == RenameTags(xmlText, TagCorrections[..i])
    {
      var (wrongTag, correctTag) := TagCorrections[i];
      r := ReplaceAll(r, OpeningOf(wrongTag), OpeningOf(correctTag));
      r := ReplaceAll(r, ClosingOf(wrongTag), ClosingOf(correctTag));
      assert TagCorrections[..i + 1][..i] == TagCorrections[..i];
    }
    assert TagCorrections[..|TagCorrections|] == TagCorrections;
    r := ReplaceAll(r, "&amp;amp;lt;", "<");
    r := ReplaceAll(r, "&amp;amp;gt;", ">");
  }

  /** No correction is longer than the name it replaces. */
  predicate NotLengthening(fixes: seq<(string, string)>) {
    forall k :: 0 <= k < |fixes| ==> |fixes[k].1| <= |fixes[k].0|
  }

  lemma {:induction false} RenameTagsNotLonger(s: string, fixes: seq<(string, string)>)
    requires NotLengthening(fixes)
    ensures |RenameTags(s, fixes)| <= |s|
    decreases |fixes|
  {
    if fixes != [] {
      RenameTagsNotLonger(s, fixes[..|fixes| - 1]);
    }
  }

  /** Cleaning never makes the document longer. */
  lemma CleanedNotLonger(s: string)
    ensures |Cleaned(s)| <= |s|
  {
    RenameTagsNotLonger(s, TagCorrections);
  }

  /** The document mentions none of the misspelt opening or closing tags of `fixes`. */
  predicate FreeOfTags(s: string, fixes: seq<(string, string)>) {
    forall k :: 0 <= k < |fixes| ==> !Contains(s, OpeningOf(fixes[k].0)) && !Contains(s, ClosingOf(fixes[k].0))
  }

  lemma {:induction false} RenameTagsKeepsFree(s: string, fixes: seq<(string, string)>)
    requires FreeOfTags(s, fixes)
    ensures RenameTags(s, fixes) == s
    decreases |fixes|
  {
    if fixes != [] {
      var last := fixes[|fixes| - 1];
      RenameTagsKeepsFree(s, fixes[..|fixes| - 1]);
      assert !Contains(s, OpeningOf(last.0)) && !Contains(s, ClosingOf(last.0));
      ReplaceAbsent(s, OpeningOf(last.0), OpeningOf(last.1));
      ReplaceAbsent(s, ClosingOf(last.0), ClosingOf(last.1));
    }
  }

  /** A document without misspelt tags or doubly escaped brackets comes back unchanged. */
  lemma CleanedKeepsWellFormed(s: string)
    requires FreeOfTags(s, TagCorrections)
    requires !Contains(s, "&amp;amp;lt;") && !Contains(s, "&amp;amp;gt;")
    ensures Cleaned(s) == s
  {
    RenameTagsKeepsFree(s, TagCorrections);
    ReplaceAbsent(s, "&amp;amp;lt;", "<");
    ReplaceAbsent(s, "&amp;amp;gt;", ">");
  }

  /** Applying a list of corrections is applying its first part, then its second. */
  lemma {:induction false} RenameTagsAppend(s: string, a: seq<(string, string)>, b: seq<(string, string)>)
    ensures RenameTags(s, a + b) == RenameTags(RenameTags(s, a), b)
    decreases |b|
  {
    if b == [] {
      assert a + b == a;
    } else {
      assert (a + b)[..|a + b| - 1] == a + b[..|b| - 1];
      RenameTagsAppend(s, a, b[..|b| - 1]);
    }
  }

  // ---------------------------------------------------------------------------
  // Renaming removes the misspelt tags
  // ---------------------------------------------------------------------------

  /** A tag-shaped text: `<`, then no angle bracket, then `>`. */
  predicate IsTag(t: string) {
    |t| >= 2 && t[0] == '<' && t[|t| - 1] == '>'
    && forall k :: 0 < k < |t| - 1 ==> t[k] != '<' && t[k] != '>'
  }

  /** Two tags that agree as far as both reach are the same tag: each ends at its only `>`. */
  lemma TagsAligned(x: string, y: string)
    requires IsTag(x) && IsTag(y)
    requires forall k :: 0 <= k < |x| && k < |y| ==> x[k] == y[k]
    ensures x == y
  {
    if |x| < |y| {
      assert false;
    } else if |y| < |x| {
      assert false;
    }
  }

  /**
   * A tag `x` other than the tag `q` that occurs in `a + q + w` lies wholly in `a`
   * or wholly in `w`: it cannot start inside `q`, nor run into it, since the only
   * `<` of a tag is its first character and the only `>` its last.
   */
  lemma TagAroundSplice(a: string, q: string, w: string, x: string, i: nat)
    requires IsTag(q) && IsTag(x) && x != q
    requires OccursAt(a + q + w, x, i)
    ensures (i + |x| <= |a| && OccursAt(a, x, i)) || (|a| + |q| <= i && OccursAt(w, x, i - |a| - |q|))
  {
    var u := a + q + w;
    var k := |a|;
    assert u[i..i + |x|] == x;
    assert u[i] == x[0];
    SpliceChar(a, q, w, i);
    SpliceChar(a, q, w, k);
    OccursChar(u, x, i, k);
    if k + |q| <= i {
      assert u[i..i + |x|] == w[i - k - |q|..i - k - |q| + |x|];
    } else if k < i {
      assert false;
    } else if k == i {
      forall j | 0 <= j < |x| && j < |q|
        ensures x[j] == q[j]
      {
        assert u[k + j] == x[j];
      }
      TagsAligned(x, q);
    } else if i + |x| <= k {
      assert u[i..i + |x|] == a[i..i + |x|];
    } else {
      assert false;
    }
  }

  /** The characters of the middle part of `a + q + w`. */
  lemma SpliceChar(a: string, q: string, w: string, j: nat)
    ensures |a| <= j < |a| + |q| ==> (a + q + w)[j] == q[j - |a|]
  {
  }

  /** The characters of an occurrence. */
  lemma OccursChar(u: string, x: string, i: nat, j: nat)
    ensures OccursAt(u, x, i) && i <= j < i + |x| ==> u[j] == x[j - i]
  {
    if OccursAt(u, x, i) && i <= j < i + |x| {
      assert u[i..i + |x|][j - i] == u[j];
    }
  }

  /**
   * What one `re.sub` of tag `p` by tag `q` can leave: a tag `x` other than `q` that
   * occurs afterwards is not `p` and occurred before.
   */
  lemma {:induction false} ReplaceTagOccurs(s: string, p: string, q: string, x: string)
    requires IsTag(p) && IsTag(q) && IsTag(x) && x != q
    requires Contains(ReplaceAll(s, p, q), x)
    ensures x != p && Contains(s, x)
    decreases |s|
  {
    var u := ReplaceAll(s, p, q);
    var i :| 0 <= i <= |u| - |x| && OccursAt(u, x, i);
    match FindFrom(s, p, 0) {
      case None =>
        ReplaceAbsent(s, p, q);
      case Some(k) =>
        ReplaceSplit(s, p, q, k);
        var rest := s[k + |p|..];
        var w := ReplaceAll(rest, p, q);
        TagAroundSplice(s[..k], q, w, x, i);
        if i + |x| <= k {
          OccursInPrefix(s, k, x, i);
        } else {
          assert Contains(w, x);
          ReplaceTagOccurs(rest, p, q, x);
          ContainsInSuffix(s, k + |p|, x);
        }
    }
  }

  /** An occurrence in a prefix is an occurrence in the whole text. */
  lemma OccursInPrefix(s: string, k: nat, x: string, i: nat)
    requires k <= |s| && OccursAt(s[..k], x, i)
    ensures OccursAt(s, x, i)
  {
    assert s[..k][i..i + |x|] == s[i..i + |x|];
  }

  /** What a suffix contains, the whole text contains. */
  lemma ContainsInSuffix(s: string, n: nat, x: string)
    requires n <= |s| && Contains(s[n..], x)
    ensures Contains(s, x)
  {
    var i :| 0 <= i <= |s[n..]| - |x| && OccursAt(s[n..], x, i);
    assert s[n + i..n + i + |x|] == s[n..][i..i + |x|];
    assert OccursAt(s, x, n + i);
  }

  /** A tag name: not empty, free of angle brackets, and not starting with `/`. */
  predicate IsTagName(w: string) {
    w != [] && w[0] != '/' && forall k :: 0 <= k < |w| ==> w[k] != '<' && w[k] != '>'
  }

  lemma TagForms(w: string)
    requires IsTagName(w)
    ensures IsTag(OpeningOf(w)) && IsTag(ClosingOf(w))
  {
    assert forall k :: 0 < k < |OpeningOf(w)| - 1 ==> OpeningOf(w)[k] == w[k - 1];
    assert forall k :: 1 < k < |ClosingOf(w)| - 1 ==> ClosingOf(w)[k] == w[k - 2];
  }

  /** The tags of two different names differ, and an opening tag is never a closing one. */
  lemma TagFormsDistinct(a: string, b: string)
    requires IsTagName(a) && IsTagName(b) && a != b
    ensures OpeningOf(a) != OpeningOf(b) && ClosingOf(a) != ClosingOf(b)
    ensures OpeningOf(a) != ClosingOf(b) && ClosingOf(a) != OpeningOf(b)
  {
    assert OpeningOf(a)[1..|OpeningOf(a)| - 1] == a;
    assert OpeningOf(b)[1..|OpeningOf(b)| - 1] == b;
    assert ClosingOf(a)[2..|ClosingOf(a)| - 1] == a;
    assert ClosingOf(b)[2..|ClosingOf(b)| - 1] == b;
    assert OpeningOf(a)[1] == a[0] && ClosingOf(b)[1] == '/';
    assert OpeningOf(b)[1] == b[0] && ClosingOf(a)[1] == '/';
  }

  /**
   * One entry's two substitutions leave no misspelt tag of that entry, and bring
   * back no tag that was absent, other than the corrected tags themselves.
   */
  lemma RenameTagKeeps(s: string, wrong: string, right: string, x: string)
    requires IsTagName(wrong) && IsTagName(right) && IsTag(x)
    requires x != OpeningOf(right) && x != ClosingOf(right)
    requires Contains(RenameTag(s, wrong, right), x)
    ensures x != OpeningOf(wrong) && x != ClosingOf(wrong) && Contains(s, x)
  {
    TagForms(wrong);
    TagForms(right);
    var u := ReplaceAll(s, OpeningOf(wrong), OpeningOf(right));
    ReplaceTagOccurs(u, ClosingOf(wrong), ClosingOf(right), x);
    ReplaceTagOccurs(s, OpeningOf(wrong), OpeningOf(right), x);
  }

  /** Corrections over tag names, where no misspelt name is also a correction. */
  predicate ProperFixes(fixes: seq<(string, string)>) {
    (forall k :: 0 <= k < |fixes| ==> IsTagName(fixes[k].0) && IsTagName(fixes[k].1))
    && forall k, l :: 0 <= k < |fixes| && 0 <= l < |fixes| ==> fixes[k].0 != fixes[l].1
  }

  /** After the renames, none of the misspelt opening or closing tags is left. */
  lemma {:induction false} RenameTagsFrees(s: string, fixes: seq<(string, string)>)
    requires ProperFixes(fixes)
    ensures FreeOfTags(RenameTags(s, fixes), fixes)
    decreases |fixes|
  {
    if fixes != [] {
      var init := fixes[..|fixes| - 1];
      var last := fixes[|fixes| - 1];
      RenameTagsFrees(s, init);
      var r := RenameTags(s, init);
      forall k | 0 <= k < |fixes|
        ensures !Contains(RenameTag(r, last.0, last.1), OpeningOf(fixes[k].0))
        ensures !Contains(RenameTag(r, last.0, last.1), ClosingOf(fixes[k].0))
      {
        var w := fixes[k].0;
        TagForms(w);
        TagFormsDistinct(w, last.1);
        if k < |fixes| - 1 {
          assert init[k] == fixes[k];
        }
        if Contains(RenameTag(r, last.0, last.1), OpeningOf(w)) {
          RenameTagKeeps(r, last.0, last.1, OpeningOf(w));
          assert false;
        }
        if Contains(RenameTag(r, last.0, last.1), ClosingOf(w)) {
          RenameTagKeeps(r, last.0, last.1, ClosingOf(w));
          assert false;
        }
      }
    }
  }

  /** A table entry over tag names whose misspelt name alone has a hyphen. */
  predicate HyphenatedEntry(e: (string, string)) {
    IsTagName(e.0) && IsTagName(e.1) && '-' in e.0 && '-' !in e.1
  }

  /** The entries of the table, one by one. */
  lemma Entry0Hyphenated()
    ensures HyphenatedEntry(("page-ref", "page_ref"))
  {
    assert "page-ref"[4] == '-';
  }

  lemma Entry1Hyphenated()
    ensures HyphenatedEntry(("file-path", "file_path"))
  {
    assert "file-path"[4] == '-';
  }

  lemma Entry2Hyphenated()
    ensures HyphenatedEntry(("related-page", "related"))
  {
    assert "related-page"[7] == '-';
  }

  lemma Entry3Hyphenated()
    ensures HyphenatedEntry(("section-ref", "section_ref"))
  {
    assert "section-ref"[7] == '-';
  }

  lemma Entry4Hyphenated()
    ensures HyphenatedEntry(("data-models", "data_models"))
  {
    assert "data-models"[4] == '-';
  }

  lemma Entry5Hyphenated()
    ensures HyphenatedEntry(("javascript-integration", "javascript_integration"))
  {
    assert "javascript-integration"[10] == '-';
  }

  lemma Entry6Hyphenated()
    ensures HyphenatedEntry(("session-management", "session_management"))
  {
    assert "session-management"[7] == '-';
  }

  lemma Entry7Hyphenated()
    ensures HyphenatedEntry(("customizing-flask", "customizing_flask"))
  {
    assert "customizing-flask"[11] == '-';
  }

  /** No misspelt name of the table is also a correction: only the misspelt names have a hyphen. */
  lemma TagCorrectionsProper()
    ensures ProperFixes(TagCorrections)
  {
    Entry0Hyphenated();
    Entry1Hyphenated();
    Entry2Hyphenated();
    Entry3Hyphenated();
    Entry4Hyphenated();
    Entry5Hyphenated();
    Entry6Hyphenated();
    Entry7Hyphenated();
    assert forall k :: 0 <= k < |TagCorrections| ==> HyphenatedEntry(TagCorrections[k]);
  }

  /** The renames of `clean_malformed_xml` leave none of the eight misspelt tags, opening or closing. */
  lemma RenamedFreeOfTags(s: string)
    ensures FreeOfTags(RenameTags(s, TagCorrections), TagCorrections)
  {
    TagCorrectionsProper();
    RenameTagsFrees(s, TagCorrections);
  }

  /** A text does not occur where its first character does not. */
  lemma AbsentFirstChar(s: string, t: string)
    requires t != [] && t[0] !in s
    ensures !Contains(s, t)
  {
    forall i | 0 <= i <= |s| - |t|
      ensures !OccursAt(s, t, i)
    {
      assert s[i..i + |t|][0] == s[i];
    }
  }

  /** The escaped bracket of `&amp;amp;lt;page-ref>` is collapsed only after the renaming. */
  lemma CleanedCompletesTagLate()
    ensures Cleaned("&amp;amp;lt;page-ref>") == "<page-ref>"
  {
    var s := "&amp;amp;lt;page-ref>";
    forall k | 0 <= k < |TagCorrections|
      ensures !Contains(s, OpeningOf(TagCorrections[k].0)) && !Contains(s, ClosingOf(TagCorrections[k].0))
    {
      AbsentFirstChar(s, OpeningOf(TagCorrections[k].0));
      AbsentFirstChar(s, ClosingOf(TagCorrections[k].0));
    }
    RenameTagsKeepsFree(s, TagCorrections);
    EntityCollapse();
  }

  lemma EntityCollapse()
    ensures CollapseEntities("&amp;amp;lt;page-ref>") == "<page-ref>"
  {
    var s := "&amp;amp;lt;page-ref>";
    assert "&amp;amp;lt;" <= s && s[12..] == "page-ref>";
    assert ReplaceAll(s, "&amp;amp;lt;", "<") == "<page-ref>";
  }

  /** A misspelt `page-ref` opening tag is renamed. */
  lemma CleanedRenamesPageRef()
    ensures Cleaned("<page-ref>") == "<page_ref>"
  {
    var t := "<page-ref>";
    assert TagCorrections == [TagCorrections[0]] + TagCorrections[1..];
    RenameTagsAppend(t, [TagCorrections[0]], TagCorrections[1..]);
    assert [TagCorrections[0]][..0] == [];
    assert ReplaceAll(t, "<page-ref>", "<page_ref>") == "<page_ref>";
    assert RenameTags(t, [TagCorrections[0]]) == "<page_ref>";
    RenameTagsKeepsFree("<page_ref>", TagCorrections[1..]);
  }

  /**
   * Cleaning is not idempotent: a doubly escaped bracket is collapsed after the
   * renaming, so a misspelt tag it completes survives one pass and is renamed by
   * the next.
   */
  lemma CleanedNotIdempotent()
    ensures Cleaned("&amp;amp;lt;page-ref>") == "<page-ref>"
    ensures Cleaned(Cleaned("&amp;amp;lt;page-ref>")) == "<page_ref>"
  {
    CleanedCompletesTagLate();
    CleanedRenamesPageRef();
  }
}
