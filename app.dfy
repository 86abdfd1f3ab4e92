/**
 * The pure string helpers of the Streamlit front end: the renderer that turns the
 * indented file tree into nested HTML lists, the cleaner of model output, and the
 * truncated README preview.
 */
module App {
  import opened Outcomes
  import opened Text

  // ---------------------------------------------------------------------------
  // render_tree_diagram
  // ---------------------------------------------------------------------------

  /** The pieces of HTML the tree renderer emits, before they are spelled out. */
  datatype Tag = StyledOpen | Open | Close | Item(text: string)

  const StyledOpenHtml := "<ul style='font-family:monospace;" + " color:white;'>"

  function TagHtml(t: Tag): string {
    match t
    case StyledOpen => StyledOpenHtml
    case Open => "<ul>"
    case Close => "</ul>"
    case Item(text) => "<li>" + text + "</li>"
  }

  /** The HTML text of a sequence of tags. */
  function Html(tags: seq<Tag>): string {
    if tags == [] then "" else TagHtml(tags[0]) + Html(tags[1..])
  }

  lemma {:induction false} HtmlAppend(a: seq<Tag>, b: seq<Tag>)
    ensures Html(a + b) == Html(a) + Html(b)
    decreases |a|
  {
    if a == [] {
      assert a + b == b;
    } else {
      assert (a + b)[1..] == a[1..] + b;
      HtmlAppend(a[1..], b);
    }
  }

  lemma HtmlOne(t: Tag)
    ensures Html([t]) == TagHtml(t)
  {
    assert [t][1..] == [];
  }

  /** `n` copies of one tag, none when `n` is not positive. */
  function Copies(t: Tag, n: int): (ts: seq<Tag>)
    ensures |ts| == Max(n, 0)
    decreases Max(n, 0)
  {
    if n <= 0 then [] else [t] + Copies(t, n - 1)
  }

  /** Copies of a tag spell out as the Python string product `html * max(n, 0)`. */
  lemma {:induction false} HtmlCopies(t: Tag, n: int)
    ensures Html(Copies(t, n)) == Repeat(TagHtml(t), Max(n, 0))
    decreases Max(n, 0)
  {
    if n > 0 {
      HtmlCopies(t, n - 1);
      assert Copies(t, n)[1..] == Copies(t, n - 1);
    }
  }

  /**
   * `(len(line) - len(line.strip())) // 2`: half the whitespace that `strip()`
   * removes, which counts what it removes from the end of the line as well.
   */
  function Indent(line: string): nat {
    (|line| - |Strip(line)|) / 2
  }

  /** A line is indented by at most half its length, and a line with no whitespace around it not at all. */
  lemma IndentBounds(line: string)
    ensures 2 * Indent(line) <= |line|
    ensures IsTrimmed(line) ==> Indent(line) == 0
  {
  }

  /** `prev_indent` after the given lines: the indent of the last one, 0 before any. */
  function LastIndent(lines: seq<string>): nat {
    if lines == [] then 0 else Indent(lines[|lines| - 1])
  }

  /** The tags a line adds: lists opened or closed from the previous indent to its own, then its item. */
  function LineTags(prev: nat, indent: nat, text: string): seq<Tag> {
    Copies(Open, indent - prev) + Copies(Close, prev - indent) + [Item(text)]
  }

  /** The tags of the loop over the lines. */
  function ItemTags(lines: seq<string>): seq<Tag> {
    if lines == [] then []
    else
      var init := lines[..|lines| - 1];
      var line := lines[|lines| - 1];
      ItemTags(init) + LineTags(LastIndent(init), Indent(line), Strip(line))
  }

  /** The whole list: the styled outer list, the lines, and one closing tag per list still open. */
  function TreeTags(lines: seq<string>): seq<Tag> {
    [StyledOpen] + ItemTags(lines) + Copies(Close, LastIndent(lines) + 1)
  }

  const FrameOpen := "<div style='white-space:pre;'>"
  const FrameClose := "</div>"

  /** The HTML that `render_tree_diagram` hands to the page for a tree text. */
  function TreePage(treeText: string): string {
    FrameOpen + Html(TreeTags(SplitLines(treeText))) + FrameClose
  }

  /**
   * Reading tags from left to right: the depth of open lists, the lowest depth
   * reached so far, and each item with the depth it sits at.
   */
  datatype Walk = Walk(depth: int, lowest: int, items: seq<(string, int)>)

  function StepWalk(w: Walk, t: Tag): Walk {
    match t
    case StyledOpen => w.(depth := w.depth + 1)
    case Open => w.(depth := w.depth + 1)
    case Close => w.(depth := w.depth - 1, lowest := Min(w.lowest, w.depth - 1))
    case Item(text) => w.(items := w.items + [(text, w.depth)])
  }

  function WalkFrom(w: Walk, tags: seq<Tag>): Walk {
    if tags == [] then w else StepWalk(WalkFrom(w, tags[..|tags| - 1]), tags[|tags| - 1])
  }

  lemma {:induction false} WalkAppend(w: Walk, a: seq<Tag>, b: seq<Tag>)
    ensures WalkFrom(w, a + b) == WalkFrom(WalkFrom(w, a), b)
    decreases |b|
  {
    if b == [] {
      assert a + b == a;
    } else {
      assert (a + b)[..|a + b| - 1] == a + b[..|b| - 1];
      WalkAppend(w, a, b[..|b| - 1]);
    }
  }

  lemma WalkOne(w: Walk, t: Tag)
    ensures WalkFrom(w, [t]) == StepWalk(w, t)
  {
    assert [t][..0] == [];
  }

  lemma {:induction false} WalkOpens(w: Walk, n: nat)
    ensures WalkFrom(w, Copies(Open, n)) == w.(depth := w.depth + n)
    decreases n
  {
    if n > 0 {
      WalkAppend(w, [Open], Copies(Open, n - 1));
      assert [Open][..0] == [];
      WalkOpens(w.(depth := w.depth + 1), n - 1);
    }
  }

  lemma {:induction false} WalkCloses(w: Walk, n: nat)
    requires w.lowest <= w.depth
    ensures WalkFrom(w, Copies(Close, n)) == w.(depth := w.depth - n, lowest := Min(w.lowest, w.depth - n))
    decreases n
  {
    if n > 0 {
      WalkAppend(w, [Close], Copies(Close, n - 1));
      assert [Close][..0] == [];
      WalkCloses(w.(depth := w.depth - 1, lowest := Min(w.lowest, w.depth - 1)), n - 1);
    }
  }

  /** Each line's stripped text with the depth of its item: one level per indent step, under the outer list. */
  function Placed(lines: seq<string>): (p: seq<(string, int)>)
    ensures |p| == |lines|
  {
    if lines == [] then []
    else
      var line := lines[|lines| - 1];
      Placed(lines[..|lines| - 1]) + [(Strip(line), Indent(line) + 1)]
  }

  /** One line moves the depth from its predecessor's indent to its own and places its item there. */
  lemma WalkLine(w: Walk, prev: nat, indent: nat, text: string)
    requires w.depth == prev + 1 && w.lowest == 0
    ensures WalkFrom(w, LineTags(prev, indent, text)) == Walk(indent + 1, 0, w.items + [(text, indent + 1)])
  {
    var moves := Copies(Open, indent - prev) + Copies(Close, prev - indent);
    WalkMoves(w, prev, indent);
    WalkAppend(w, moves, [Item(text)]);
    WalkOne(w.(depth := indent + 1), Item(text));
  }

  /** The lists opened or closed between two lines take the depth from one indent to the other. */
  lemma WalkMoves(w: Walk, prev: nat, indent: nat)
    requires w.depth == prev + 1 && w.lowest == 0
    ensures WalkFrom(w, Copies(Open, indent - prev) + Copies(Close, prev - indent)) == w.(depth := indent + 1)
  {
    WalkAppend(w, Copies(Open, indent - prev), Copies(Close, prev - indent));
    if indent >= prev {
      WalkOpens(w, indent - prev);
      assert Copies(Close, prev - indent) == [];
    } else {
      assert Copies(Open, indent - prev) == [];
      WalkCloses(w, prev - indent);
    }
  }

  lemma PlacedSnoc(lines: seq<string>)
    requires lines != []
    ensures LastIndent(lines) == Indent(lines[|lines| - 1])
    ensures ItemTags(lines) == ItemTags(lines[..|lines| - 1])
      + LineTags(LastIndent(lines[..|lines| - 1]), Indent(lines[|lines| - 1]), Strip(lines[|lines| - 1]))
    ensures Placed(lines) == Placed(lines[..|lines| - 1]) + [(Strip(lines[|lines| - 1]), Indent(lines[|lines| - 1]) + 1)]
  {
  }

  lemma PlacedLast(lines: seq<string>)
    requires lines != []
    ensures Placed(lines) == Placed(lines[..|lines| - 1]) + [(Strip(lines[|lines| - 1]), Indent(lines[|lines| - 1]) + 1)]
  {
  }

  lemma WalkItemsStep(tags: seq<Tag>, prev: nat, indent: nat, text: string, items: seq<(string, int)>)
    requires WalkFrom(Walk(1, 0, []), tags) == Walk(prev + 1, 0, items)
    ensures WalkFrom(Walk(1, 0, []), tags + LineTags(prev, indent, text)) == Walk(indent + 1, 0, items + [(text, indent + 1)])
  {
    WalkAppend(Walk(1, 0, []), tags, LineTags(prev, indent, text));
    WalkLine(Walk(prev + 1, 0, items), prev, indent, text);
  }

  lemma {:induction false} WalkItems(lines: seq<string>)
    ensures WalkFrom(Walk(1, 0, []), ItemTags(lines)) == Walk(LastIndent(lines) + 1, 0, Placed(lines))
    decreases |lines|
  {
    if lines != [] {
      var init := lines[..|lines| - 1];
      PlacedSnoc(lines);
      WalkItems(init);
      WalkItemsStep(ItemTags(init), LastIndent(init), Indent(lines[|lines| - 1]), Strip(lines[|lines| - 1]), Placed(init));
    } else {
      assert ItemTags(lines) == [] && Placed(lines) == [];
    }
  }

  lemma {:induction false} PlacedIndex(lines: seq<string>, k: nat)
    requires k < |lines|
    ensures Placed(lines)[k] == (Strip(lines[k]), Indent(lines[k]) + 1)
    decreases |lines|
  {
    var init := lines[..|lines| - 1];
    PlacedLast(lines);
    if k < |init| {
      PlacedIndex(init, k);
      SnocIndex(Placed(init), (Strip(lines[|lines| - 1]), Indent(lines[|lines| - 1]) + 1), k);
      assert lines[k] == init[k];
    }
  }

  lemma SnocIndex<T>(xs: seq<T>, x: T, k: nat)
    requires k < |xs|
    ensures (xs + [x])[k] == xs[k]
  {
  }

  lemma PlacedAt(lines: seq<string>)
    ensures forall k :: 0 <= k < |lines| ==> Placed(lines)[k] == (Strip(lines[k]), Indent(lines[k]) + 1)
  {
    forall k | 0 <= k < |lines|
      ensures Placed(lines)[k] == (Strip(lines[k]), Indent(lines[k]) + 1)
    {
      PlacedIndex(lines, k);
    }
  }

  /**
   * The tree is balanced and mirrors the text: every list opened is closed, no
   * closing tag comes before its opening tag, and there is one item per line, in
   * order, holding the stripped line at depth `indent + 1`.
   */
  lemma TreeWalk(lines: seq<string>)
    ensures WalkFrom(Walk(0, 0, []), TreeTags(lines)).depth == 0
    ensures WalkFrom(Walk(0, 0, []), TreeTags(lines)).lowest == 0
    ensures |WalkFrom(Walk(0, 0, []), TreeTags(lines)).items| == |lines|
    ensures forall k :: 0 <= k < |lines| ==>
      WalkFrom(Walk(0, 0, []), TreeTags(lines)).items[k] == (Strip(lines[k]), Indent(lines[k]) + 1)
  {
    PlacedAt(lines);
    var start := Walk(0, 0, []);
    var n := LastIndent(lines) + 1;
    WalkOne(start, StyledOpen);
    WalkAppend(start, [StyledOpen], ItemTags(lines));
    WalkItems(lines);
    var w := Walk(n, 0, Placed(lines));
    assert WalkFrom(start, [StyledOpen] + ItemTags(lines)) == w;
    WalkAppend(start, [StyledOpen] + ItemTags(lines), Copies(Close, n));
    WalkCloses(w, n);
  }

  lemma ItemTagsSnoc(lines: seq<string>, i: nat, prev: nat, indent: nat, text: string)
    requires i < |lines| && prev == LastIndent(lines[..i]) && indent == Indent(lines[i]) && text == Strip(lines[i])
    ensures ItemTags(lines[..i + 1]) == ItemTags(lines[..i]) + LineTags(prev, indent, text)
    ensures LastIndent(lines[..i + 1]) == indent
  {
    assert lines[..i + 1][..i] == lines[..i];
  }

  /** `render_tree_diagram(tree_text)`, up to handing the HTML to the page. */
  method RenderTreeDiagram(treeText: string) returns (page: string)
    ensures page == TreePage(treeText)
  {
    var lines := SplitLines(treeText);
    var html := StyledOpenHtml;
    var prevIndent: nat := 0;
    for i := 0 to |lines|
      invariant html == StyledOpenHtml + Html(ItemTags(lines[..i]))
      invariant prevIndent == LastIndent(lines[..i])
    {
      var line := lines[i];
      var stripped := Strip(line);
      var indent: nat := (|line| - |stripped|) / 2;
      ghost var before := html;
      html := html + Repeat("<ul>", Max(indent - prevIndent, 0));
      html := html + Repeat("</ul>", Max(prevIndent - indent, 0));
      html := html + "<li>" + stripped + "</li>";
      LineHtml(prevIndent, indent, stripped);
      AppendLine(before, Repeat("<ul>", Max(indent - prevIndent, 0)), Repeat("</ul>", Max(prevIndent - indent, 0)), stripped);
      ghost var tags := LineTags(prevIndent, indent, stripped);
      assert html == before + Html(tags);
      HtmlAppend(ItemTags(lines[..i]), tags);
      AppendAssoc(StyledOpenHtml, Html(ItemTags(lines[..i])), Html(tags));
      ItemTagsSnoc(lines, i, prevIndent, indent, stripped);
      prevIndent := indent;
    }
    assert lines[..|lines|] == lines;
    HtmlCopies(Close, prevIndent + 1);
    HtmlOne(StyledOpen);
    HtmlAppend([StyledOpen], ItemTags(lines));
    HtmlAppend([StyledOpen] + ItemTags(lines), Copies(Close, prevIndent + 1));
    html := html + Repeat("</ul>", prevIndent + 1);
    page := "<div style='white-space:pre;'>" + html + "</div>";
  }

  lemma AppendAssoc(a: string, b: string, c: string)
    ensures a + b + c == a + (b + c)
  {
  }

  lemma AppendLine(html: string, opens: string, closes: string, text: string)
    ensures html + opens + closes + "<li>" + text + "</li>" == html + (opens + closes + "<li>" + text + "</li>")
  {
  }

  lemma LineHtml(prev: nat, indent: nat, text: string)
    ensures Html(LineTags(prev, indent, text))
         == Repeat("<ul>", Max(indent - prev, 0)) + Repeat("</ul>", Max(prev - indent, 0)) + "<li>" + text + "</li>"
  {
    var moves := Copies(Open, indent - prev) + Copies(Close, prev - indent);
    HtmlMoves(prev, indent);
    HtmlAppend(moves, [Item(text)]);
    HtmlOne(Item(text));
  }

  lemma HtmlMoves(prev: nat, indent: nat)
    ensures Html(Copies(Open, indent - prev) + Copies(Close, prev - indent))
         == Repeat("<ul>", Max(indent - prev, 0)) + Repeat("</ul>", Max(prev - indent, 0))
  {
    HtmlCopies(Open, indent - prev);
    HtmlCopies(Close, prev - indent);
    HtmlAppend(Copies(Open, indent - prev), Copies(Close, prev - indent));
  }

  // ---------------------------------------------------------------------------
  // clean_llm_output
  // ---------------------------------------------------------------------------

  /** Three backticks start at `i`. */
  predicate TicksAt(s: string, i: nat) {
    i + 3 <= |s| && s[i..i + 3] == "```"
  }

  /** `^` under `re.MULTILINE`: the start of the text or just after a newline. */
  predicate LineStart(s: string, i: nat) {
    i == 0 || (i <= |s| && s[i - 1] == '\n')
  }

  /** `$` under `re.MULTILINE`: the end of the text or just before a newline. */
  predicate LineEndAt(s: string, i: nat) {
    i == |s| || (i < |s| && s[i] == '\n')
  }

  /** The closing part of the fence pattern, three backticks at the end of a line, at `j`. */
  predicate ClosesAt(s: string, j: nat) {
    TicksAt(s, j) && LineEndAt(s, j + 3)
  }

  /** Where the lazy `.*?` of the fence pattern stops: the first closing at or after `q`. */
  function CloseFrom(s: string, q: nat): (e: Option<nat>)
    ensures e.Some? ==> q <= e.value && ClosesAt(s, e.value)
    ensures e.Some? ==> forall j :: q <= j < e.value ==> !ClosesAt(s, j)
    ensures e.None? ==> forall j :: q <= j ==> !ClosesAt(s, j)
    decreases |s| - q
  {
    if q + 3 > |s| then None
    else if ClosesAt(s, q) then Some(q)
    else CloseFrom(s, q + 1)
  }

  /** The end of a match of the fence pattern `^```.*?```$` (DOTALL, MULTILINE) starting at `p`. */
  function FenceAt(s: string, p: nat): (e: Option<nat>)
    ensures e.Some? ==> LineStart(s, p) && TicksAt(s, p) && p + 6 <= e.value <= |s| && ClosesAt(s, e.value - 3)
    ensures e.Some? ==> forall j :: p + 3 <= j < e.value - 3 ==> !ClosesAt(s, j)
    ensures e.None? ==> !(LineStart(s, p) && TicksAt(s, p)) || forall j :: p + 3 <= j ==> !ClosesAt(s, j)
  {
    if LineStart(s, p) && TicksAt(s, p) then
      match CloseFrom(s, p + 3)
      case None => None
      case Some(q) => Some(q + 3)
    else None
  }

  /**
   * `re.sub(fence_pattern, "", s[from:])` as the scan sees it: at each position a
   * match is removed whole and the scan resumes after it; any other character is kept.
   */
  function Unfenced(s: string, from: nat): (r: string)
    requires from <= |s|
    ensures |r| <= |s| - from
    decreases |s| - from
  {
    if from == |s| then ""
    else
      match FenceAt(s, from)
      case Some(e) => Unfenced(s, e)
      case None => [s[from]] + Unfenced(s, from + 1)
  }

  /** Text with no three backticks from `from` on comes through the fence removal unchanged. */
  lemma {:induction false} UnfencedPlain(s: string, from: nat)
    requires from <= |s|
    requires forall j :: from <= j ==> !TicksAt(s, j)
    ensures Unfenced(s, from) == s[from..]
    decreases |s| - from
  {
    if from < |s| {
      assert !TicksAt(s, from);
      UnfencedPlain(s, from + 1);
      assert s[from..] == [s[from]] + s[from + 1..];
    }
  }

  /** A fenced block at the start of a line is removed whole, with what lies between its fences. */
  lemma {:induction false} UnfencedDropsBlock(s: string, from: nat)
    requires from <= |s| && FenceAt(s, from).Some?
    ensures Unfenced(s, from) == Unfenced(s, FenceAt(s, from).value)
  {
  }

  /** The sign-off phrases, matched ignoring case; each cuts the text from where it first occurs. */
  const SignOffs: seq<string> := [
    "let me know if you need more help",
    "please let me know if you need" + " any further assistance",
    "i hope this helps",
    "feel free to ask"
  ]

  /** `re.sub(phrase + ".*", "", s, flags=re.IGNORECASE | re.DOTALL)` for a phrase free of metacharacters. */
  function Cut(s: string, phrase: string): (r: string)
    ensures r <= s
    ensures r != s ==> OccursAtIgnoreCase(s, phrase, |r|)
    ensures forall j :: 0 <= j < |r| ==> !OccursAtIgnoreCase(s, phrase, j)
  {
    match FindFrom(FoldCase(s), phrase, 0)
    case None => s
    case Some(i) => s[..i]
  }

  /** Each phrase in turn cuts the text, which is stripped after every cut. */
  function DropSignOffs(text: string, phrases: seq<string>): string {
    if phrases == [] then text
    else Strip(Cut(DropSignOffs(text, phrases[..|phrases| - 1]), phrases[|phrases| - 1]))
  }

  /** What `clean_llm_output(text)` returns. */
  function CleanedOutput(text: string): string {
    DropSignOffs(Strip(Unfenced(text, 0)), SignOffs)
  }

  /** `clean_llm_output(text)`: remove fenced blocks, strip, then cut at each sign-off phrase and strip. */
  method CleanLlmOutput(text: string) returns (r: string)
    ensures r == CleanedOutput(text)
  {
    r := CutEach(Strip(Unfenced(text, 0)), SignOffs);
  }

  /** The loop over the sign-off phrases: cut at each in turn, then strip. */
  method CutEach(text: string, phrases: seq<string>) returns (r: string)
    ensures r == DropSignOffs(text, phrases)
  {
    r := text;
    for i := 0 to |phrases|
      invariant r == DropSignOffs(text, phrases[..i])
    {
      assert phrases[..i + 1][..i] == phrases[..i];
      r := Strip(Cut(r, phrases[i]));
    }
    assert phrases[..|phrases|] == phrases;
  }

  /** A phrase is cut exactly when the text holds it, ignoring case. */
  lemma CutChanges(s: string, phrase: string)
    requires phrase != []
    ensures Cut(s, phrase) == s <==> !Contains(FoldCase(s), phrase)
  {
    var f := FoldCase(s);
    match FindFrom(f, phrase, 0)
    case None =>
    case Some(i) =>
      assert 0 <= i <= |f| - |phrase| && OccursAt(f, phrase, i);
  }

  /** After the cut the phrase no longer occurs, in any case. */
  lemma CutRemoves(s: string, phrase: string)
    requires phrase != []
    ensures !Contains(FoldCase(Cut(s, phrase)), phrase)
  {
    var r := Cut(s, phrase);
    assert s[..|r|] == r;
    FoldCaseSlice(s, 0, |r|);
    forall j | 0 <= j <= |r| - |phrase|
      ensures !OccursAt(FoldCase(r), phrase, j)
    {
      assert !OccursAtIgnoreCase(s, phrase, j);
      assert FoldCase(r)[j..j + |phrase|] == FoldCase(s)[j..j + |phrase|];
    }
  }

  /** Cutting and stripping never bring back a text that was absent. */
  lemma CutStripKeepsAbsence(s: string, phrase: string, q: string)
    requires !Contains(FoldCase(s), q)
    ensures !Contains(FoldCase(Strip(Cut(s, phrase))), q)
  {
    var c := Cut(s, phrase);
    FoldCaseSlice(s, 0, |c|);
    assert s[..|c|] == c;
    SliceKeepsAbsence(FoldCase(s), q, 0, |c|);
    var a, b := StripSlice(c);
    FoldCaseSlice(c, a, b);
    SliceKeepsAbsence(FoldCase(c), q, a, b);
  }

  /** None of the phrases survives the cuts, whatever case it was written in. */
  lemma {:induction false} DropSignOffsFree(text: string, phrases: seq<string>)
    requires forall k :: 0 <= k < |phrases| ==> phrases[k] != []
    ensures forall k :: 0 <= k < |phrases| ==> !Contains(FoldCase(DropSignOffs(text, phrases)), phrases[k])
    decreases |phrases|
  {
    if phrases != [] {
      var init := phrases[..|phrases| - 1];
      var last := phrases[|phrases| - 1];
      var before := DropSignOffs(text, init);
      DropSignOffsFree(text, init);
      forall k | 0 <= k < |phrases|
        ensures !Contains(FoldCase(DropSignOffs(text, phrases)), phrases[k])
      {
        if k == |phrases| - 1 {
          CutRemoves(before, last);
          var c := Cut(before, last);
          var a, b := StripSlice(c);
          FoldCaseSlice(c, a, b);
          SliceKeepsAbsence(FoldCase(c), last, a, b);
        } else {
          assert phrases[k] == init[k];
          CutStripKeepsAbsence(before, last, phrases[k]);
        }
      }
    }
  }

  /** `clean_llm_output` returns trimmed text holding none of the sign-off phrases, in any case. */
  lemma CleanedOutputClean(text: string)
    ensures IsTrimmed(CleanedOutput(text))
    ensures forall k :: 0 <= k < |SignOffs| ==> !Contains(FoldCase(CleanedOutput(text)), SignOffs[k])
  {
    DropSignOffsFree(Strip(Unfenced(text, 0)), SignOffs);
  }

  // ---------------------------------------------------------------------------
  // README preview
  // ---------------------------------------------------------------------------

  const PreviewLength := 4000

  /** `readme[:4000] + ("\n…" if len(readme) > 4000 else "")`. */
  function ReadmePreview(readme: string): (r: string)
    ensures |readme| <= PreviewLength ==> r == readme
    ensures |readme| > PreviewLength ==> |r| == PreviewLength + 2 && r[..PreviewLength] == readme[..PreviewLength]
    ensures |readme| > PreviewLength ==> r[PreviewLength..] == "\n…"
  {
    Take(readme, PreviewLength) + (if |readme| > PreviewLength then "\n…" else "")
  }
}
