/**
 * Splitting a generated page into plain-markdown and Mermaid-diagram segments
 * (`split_markdown_into_segments` and the block pattern it iterates over).
 *
 * The block pattern, compiled with IGNORECASE, DOTALL and VERBOSE, is: the start
 * of the text or a line break; an indentation of spaces and tabs; a fence of three
 * or more backticks or three or more tildes; spaces and tabs; the word `mermaid`
 * ending at a word boundary; the rest of that line and its line break; the
 * shortest body; then a line break, the same indentation, the same fence, spaces
 * and tabs, and a line end (`\r\n`, `\n` or the end of the text) that is not
 * consumed. The scanner below decides the match at one position exactly as the
 * backtracking engine does: every greedy run in the pattern is followed by a
 * character it cannot give back, so only the lazy body and the two alternatives
 * of the start ever backtrack.
 */
module MarkdownSegments {
  import opened Outcomes
  import opened Text

  /** One piece of a page: markdown to show as it is, or the source of a Mermaid diagram. */
  datatype Segment = Text(content: string) | Mermaid(content: string)

  predicate IsBlank(c: char) { c == ' ' || c == '\t' }

  /** ASCII word characters, the ones `\b` after `mermaid` is modelled with. */
  predicate IsWordChar(c: char) {
    ('a' <= c <= 'z') || ('A' <= c <= 'Z') || ('0' <= c <= '9') || c == '_'
  }

  /** End of the run of spaces and tabs starting at `i` (a greedy `[ \t]*`). */
  function SkipBlanks(s: string, i: nat): (j: nat)
    requires i <= |s|
    ensures i <= j <= |s|
    ensures j < |s| ==> !IsBlank(s[j])
    decreases |s| - i
  {
    if i < |s| && IsBlank(s[i]) then SkipBlanks(s, i + 1) else i
  }

  /** Everything `SkipBlanks` skips is a blank. */
  lemma {:induction false} SkipBlanksSpan(s: string, i: nat)
    requires i <= |s|
    ensures forall k :: i <= k < SkipBlanks(s, i) ==> IsBlank(s[k])
    decreases |s| - i
  {
    if i < |s| && IsBlank(s[i]) {
      SkipBlanksSpan(s, i + 1);
    }
  }

  /** End of the run of `c` starting at `i`. */
  function RunOf(s: string, i: nat, c: char): (j: nat)
    requires i <= |s|
    ensures i <= j <= |s|
    ensures j < |s| ==> s[j] != c
    decreases |s| - i
  {
    if i < |s| && s[i] == c then RunOf(s, i + 1, c) else i
  }

  /** Everything `RunOf` passes over is `c`. */
  lemma {:induction false} RunOfSpan(s: string, i: nat, c: char)
    requires i <= |s|
    ensures forall k :: i <= k < RunOf(s, i, c) ==> s[k] == c
    decreases |s| - i
  {
    if i < |s| && s[i] == c {
      RunOfSpan(s, i + 1, c);
    }
  }

  /** A fence: three or more backticks, or three or more tildes. */
  predicate IsFence(f: string) {
    |f| >= 3 && (f[0] == '`' || f[0] == '~') && forall k :: 0 <= k < |f| ==> f[k] == f[0]
  }

  predicate IsIndent(w: string) {
    forall k :: 0 <= k < |w| ==> IsBlank(w[k])
  }

  /** `w`, written in lower case, stands at `i` of `s` when case is ignored. */
  predicate HasAtIgnoreCase(s: string, i: nat, w: string)
    decreases |w|
  {
    if w == [] then i <= |s| else i < |s| && FoldChar(s[i]) == w[0] && HasAtIgnoreCase(s, i + 1, w[1..])
  }

  /** A word is found ignoring case where the folded characters spell it. */
  lemma {:induction false} HasAtFolded(s: string, i: nat, w: string)
    requires i + |w| <= |s| && forall k :: 0 <= k < |w| ==> FoldChar(s[i + k]) == w[k]
    ensures HasAtIgnoreCase(s, i, w)
    decreases |w|
  {
    if w != [] {
      assert FoldChar(s[i]) == w[0];
      HasAtFolded(s, i + 1, w[1..]);
    }
  }

  lemma {:induction false} HasAtIgnoreCaseLength(s: string, i: nat, w: string)
    requires HasAtIgnoreCase(s, i, w)
    ensures i + |w| <= |s|
    decreases |w|
  {
    if w != [] {
      HasAtIgnoreCaseLength(s, i + 1, w[1..]);
    }
  }

  /** Index of the first line break at or after `i`, if any. */
  function NextNewline(s: string, i: nat): (l: Option<nat>)
    ensures l.Some? ==> i <= l.value < |s| && s[l.value] == '\n'
    decreases |s| - i
  {
    if i >= |s| then None
    else if s[i] == '\n' then Some(i)
    else NextNewline(s, i + 1)
  }

  /** `NextNewline` finds the first line break: there is none before it, and none at all when it finds none. */
  lemma {:induction false} NextNewlineFirst(s: string, i: nat)
    ensures var l := NextNewline(s, i);
      forall k :: i <= k < (if l.Some? then l.value else |s|) ==> s[k] != '\n'
    decreases |s| - i
  {
    if i < |s| && s[i] != '\n' {
      NextNewlineFirst(s, i + 1);
    }
  }

  /**
   * One match of the block pattern. `start` is where the match begins (a line
   * break, or the start of the text), `open` where the indentation of the opening
   * fence begins, `fenceStart..fenceEnd` the opening fence, `bodyStart..bodyEnd`
   * the body, and `end` the end of the match, just before the line end that
   * follows the closing fence.
   */
  datatype Block = Block(start: nat, open: nat, fenceStart: nat, fenceEnd: nat, bodyStart: nat, bodyEnd: nat, end: nat)

  /**
   * The opening line read from `a`: indentation, fence, blanks, `mermaid` (ignoring
   * case) at a word boundary, and the rest of the line with its line break. Gives
   * where the fence starts and ends and where the body starts.
   */
  function OpeningAt(s: string, a: nat): (o: Option<(nat, nat, nat)>)
    requires a <= |s|
    ensures o.Some? ==> a <= o.value.0 && o.value.0 + 3 <= o.value.1 < o.value.2 <= |s| && s[o.value.2 - 1] == '\n'
  {
    var ind := SkipBlanks(s, a);
    if ind < |s| && (s[ind] == '`' || s[ind] == '~') then
      var fe := RunOf(s, ind, s[ind]);
      var t := SkipBlanks(s, fe);
      if fe - ind >= 3 && HasAtIgnoreCase(s, t, "mermaid") then
        HasAtIgnoreCaseLength(s, t, "mermaid");
        if t + 7 == |s| || !IsWordChar(s[t + 7]) then
          match NextNewline(s, t + 7)
          case None => None
          case Some(l) => Some((ind, fe, l + 1))
        else None
      else None
    else None
  }

  /** The word after the opening fence, in lower case (matched ignoring case). */
  const Keyword := "mermaid"

  /**
   * The rest of the opening line after the fence ending at `fenceEnd`: blanks, then
   * `mermaid` in any case at a word boundary, then no line break before the one
   * that ends the line at `bodyStart - 1`.
   */
  predicate MermaidLine(s: string, fenceEnd: nat, bodyStart: nat)
    requires fenceEnd <= |s|
  {
    var t := SkipBlanks(s, fenceEnd);
    && HasAtIgnoreCase(s, t, Keyword)
    && (t + |Keyword| >= |s| || !IsWordChar(s[t + |Keyword|]))
    && forall k :: t + |Keyword| <= k < bodyStart - 1 && k < |s| ==> s[k] != '\n'
  }

  /**
   * The opening line starts with an indentation of blanks and a fence, and goes on
   * with blanks and the word `mermaid` to the end of its line.
   */
  lemma OpeningShape(s: string, a: nat)
    requires a <= |s| && OpeningAt(s, a).Some?
    ensures IsIndent(s[a..OpeningAt(s, a).value.0])
    ensures IsFence(s[OpeningAt(s, a).value.0..OpeningAt(s, a).value.1])
    ensures MermaidLine(s, OpeningAt(s, a).value.1, OpeningAt(s, a).value.2)
  {
    var ind := SkipBlanks(s, a);
    SkipBlanksSpan(s, a);
    RunOfSpan(s, ind, s[ind]);
    RunIsFence(s, ind, RunOf(s, ind, s[ind]));
    BlanksAreIndent(s, a, ind);
    OpeningKeyword(s, a);
  }

  lemma OpeningKeyword(s: string, a: nat)
    requires a <= |s| && OpeningAt(s, a).Some?
    ensures MermaidLine(s, OpeningAt(s, a).value.1, OpeningAt(s, a).value.2)
  {
    var ind := SkipBlanks(s, a);
    var t := SkipBlanks(s, RunOf(s, ind, s[ind]));
    NextNewlineFirst(s, t + 7);
  }

  lemma RunIsFence(s: string, i: nat, j: nat)
    requires i + 3 <= j <= |s| && (s[i] == '`' || s[i] == '~')
    requires forall k :: i <= k < j ==> s[k] == s[i]
    ensures IsFence(s[i..j])
  {
  }

  lemma BlanksAreIndent(s: string, i: nat, j: nat)
    requires i <= j <= |s|
    requires forall k :: i <= k < j ==> IsBlank(s[k])
    ensures IsIndent(s[i..j])
  {
  }

  /** The `n` characters at `j` repeat the `n` characters at `i`, compared one by one. */
  predicate Repeats(s: string, i: nat, j: nat, n: nat): (r: bool)
    ensures r ==> i + n <= |s| && j + n <= |s|
    decreases n
  {
    if n == 0 then i <= |s| && j <= |s|
    else i < |s| && j < |s| && s[i] == s[j] && Repeats(s, i + 1, j + 1, n - 1)
  }

  /** Comparing one by one is comparing the text `s[i..k]` with what stands at `j`. */
  lemma {:induction false} RepeatsOccurs(s: string, i: nat, k: nat, j: nat)
    requires i <= k <= |s|
    ensures Repeats(s, i, j, k - i) <==> OccursAt(s, s[i..k], j)
    decreases k - i
  {
    if i < k {
      RepeatsOccurs(s, i + 1, k, j + 1);
      if j + (k - i) <= |s| {
        var u, v := s[j..j + (k - i)], s[i..k];
        assert u[1..] == s[j + 1..j + 1 + (k - (i + 1))];
        assert v[1..] == s[i + 1..k];
        FirstAndRest(u, v);
      }
    }
  }

  lemma FirstAndRest(u: string, v: string)
    requires |u| == |v| > 0
    ensures u == v <==> u[0] == v[0] && u[1..] == v[1..]
  {
    assert u == [u[0]] + u[1..];
    assert v == [v[0]] + v[1..];
  }

  /** The lookahead `(?=\r?\n|$)`: a line end follows `i`, and is not consumed. */
  predicate LineEndAhead(s: string, i: nat) {
    i == |s| || (i < |s| && s[i] == '\n') || (i + 1 < |s| && s[i] == '\r' && s[i + 1] == '\n')
  }

  /**
   * The closing line after a line break at `be`: the indentation and fence of the
   * opening line, `open..fenceEnd`, repeated, then blanks up to a line end. Gives
   * the end of the match when it is there.
   */
  function ClosingAt(s: string, be: nat, open: nat, fenceEnd: nat): (e: Option<nat>)
    requires open <= fenceEnd <= |s|
    ensures e.Some? ==> be + 1 + (fenceEnd - open) <= e.value <= |s|
    ensures e.Some? ==> s[be] == '\n' && Repeats(s, open, be + 1, fenceEnd - open)
    ensures e.Some? ==> LineEndAhead(s, e.value)
  {
    if be < |s| && s[be] == '\n' && Repeats(s, open, be + 1, fenceEnd - open) then
      SkipBlanksSpan(s, be + 1 + (fenceEnd - open));
      var k := SkipBlanks(s, be + 1 + (fenceEnd - open));
      if k == |s| || s[k] == '\n' || (s[k] == '\r' && k + 1 < |s| && s[k + 1] == '\n') then Some(k) else None
    else None
  }

  /** Between the repeated fence and the end of a closing line there are only spaces and tabs. */
  lemma ClosingAtBlanks(s: string, be: nat, open: nat, fenceEnd: nat)
    requires open <= fenceEnd <= |s|
    requires ClosingAt(s, be, open, fenceEnd).Some?
    ensures forall k :: be + 1 + (fenceEnd - open) <= k < ClosingAt(s, be, open, fenceEnd).value ==> IsBlank(s[k])
  {
    SkipBlanksSpan(s, be + 1 + (fenceEnd - open));
  }

  /** The lazy body: the first line break at or after `from` that a closing line follows. */
  function FindClosing(s: string, from: nat, open: nat, fenceEnd: nat): (r: Option<(nat, nat)>)
    requires open <= fenceEnd <= |s|
    ensures r.Some? ==> from <= r.value.0 && ClosingAt(s, r.value.0, open, fenceEnd) == Some(r.value.1)
    decreases |s| - from
  {
    if from >= |s| then None
    else
      match ClosingAt(s, from, open, fenceEnd)
      case Some(e) => Some((from, e))
      case None => FindClosing(s, from + 1, open, fenceEnd)
  }

  /** The body is the shortest one: no closing line follows an earlier line break. */
  lemma {:induction false} FindClosingFirst(s: string, from: nat, open: nat, fenceEnd: nat)
    requires open <= fenceEnd <= |s|
    ensures FindClosing(s, from, open, fenceEnd).Some? ==>
      forall j :: from <= j < FindClosing(s, from, open, fenceEnd).value.0 ==> ClosingAt(s, j, open, fenceEnd).None?
    ensures FindClosing(s, from, open, fenceEnd).None? ==>
      forall j: nat :: from <= j ==> ClosingAt(s, j, open, fenceEnd).None?
    decreases |s| - from
  {
    if from < |s| && ClosingAt(s, from, open, fenceEnd).None? {
      FindClosingFirst(s, from + 1, open, fenceEnd);
    }
  }

  /** The rest of the pattern, tried with the opening line read from `a`, for a match starting at `p`. */
  function BlockFrom(s: string, p: nat, a: nat): (b: Option<Block>)
    requires p <= a <= |s|
    ensures b.Some? ==> b.value.start == p && b.value.open == a && WithinText(s, b.value)
  {
    match OpeningAt(s, a)
    case None => None
    case Some((fenceStart, fenceEnd, bodyStart)) =>
      match FindClosing(s, bodyStart, a, fenceEnd)
      case None => None
      case Some((bodyEnd, end)) => Some(Block(p, a, fenceStart, fenceEnd, bodyStart, bodyEnd, end))
  }

  /** The positions of a block are in order and inside the text. */
  predicate WithinText(s: string, b: Block) {
    b.start < b.bodyStart <= b.bodyEnd < b.end <= |s|
  }

  /**
   * What a block found in `s` looks like, said without the scanner: an opening
   * line of indentation, fence and the word `mermaid`, the body, and a closing
   * line repeating the indentation and the fence, with only blanks after it up
   * to a line end.
   */
  predicate IsMermaidBlock(s: string, b: Block) {
    && b.start < b.bodyStart <= b.bodyEnd < b.end <= |s|
    && (b.open == b.start == 0 || (b.open == b.start + 1 && s[b.start] == '\n'))
    && b.open <= b.fenceStart < b.fenceEnd < b.bodyStart
    && IsIndent(s[b.open..b.fenceStart]) && IsFence(s[b.fenceStart..b.fenceEnd])
    && s[b.bodyStart - 1] == '\n' && MermaidLine(s, b.fenceEnd, b.bodyStart)
    && s[b.bodyEnd] == '\n' && OccursAt(s, s[b.open..b.fenceEnd], b.bodyEnd + 1)
    && b.bodyEnd + 1 + (b.fenceEnd - b.open) <= b.end
    && (forall k :: b.bodyEnd + 1 + (b.fenceEnd - b.open) <= k < b.end ==> IsBlank(s[k]))
    && LineEndAhead(s, b.end)
  }

  /** The match starting at `p`: the start-of-text alternative is tried before the line break. */
  function MatchAt(s: string, p: nat): (b: Option<Block>)
    ensures b.Some? ==> b.value.start == p && WithinText(s, b.value)
  {
    var first := if p == 0 then BlockFrom(s, 0, 0) else None;
    if first.Some? then first
    else if p < |s| && s[p] == '\n' then BlockFrom(s, p, p + 1)
    else None
  }

  /** Every match is a Mermaid block: fences alike at both ends, the body between them. */
  lemma MatchAtShape(s: string, p: nat)
    requires MatchAt(s, p).Some?
    ensures IsMermaidBlock(s, MatchAt(s, p).value)
  {
    var a := MatchAtOpen(s, p);
    BlockFromShape(s, p, a);
  }

  /** Where the opening line of the match at `p` is read from: `p` itself at the start of the text, else after the line break at `p`. */
  lemma MatchAtOpen(s: string, p: nat) returns (a: nat)
    requires MatchAt(s, p).Some?
    ensures p <= a <= |s| && (a == p == 0 || (a == p + 1 && s[p] == '\n'))
    ensures MatchAt(s, p) == BlockFrom(s, p, a)
  {
    if p == 0 && BlockFrom(s, 0, 0).Some? {
      a := 0;
    } else {
      a := p + 1;
    }
  }

  lemma BlockFromShape(s: string, p: nat, a: nat)
    requires p <= a <= |s| && BlockFrom(s, p, a).Some?
    requires a == p == 0 || (a == p + 1 && s[p] == '\n')
    ensures IsMermaidBlock(s, BlockFrom(s, p, a).value)
  {
    var (fenceStart, fenceEnd, bodyStart) := OpeningAt(s, a).value;
    var (bodyEnd, end) := FindClosing(s, bodyStart, a, fenceEnd).value;
    assert BlockFrom(s, p, a).value == Block(p, a, fenceStart, fenceEnd, bodyStart, bodyEnd, end);
    OpeningShape(s, a);
    ClosingShape(s, Block(p, a, fenceStart, fenceEnd, bodyStart, bodyEnd, end));
  }

  /** A block whose opening line has been checked, closed where the scanner found its closing line. */
  lemma ClosingShape(s: string, b: Block)
    requires b.start <= b.open <= |s|
    requires b.open == b.start == 0 || (b.open == b.start + 1 && s[b.start] == '\n')
    requires b.open <= b.fenceStart && b.fenceStart + 3 <= b.fenceEnd < b.bodyStart <= |s| && s[b.bodyStart - 1] == '\n'
    requires IsIndent(s[b.open..b.fenceStart]) && IsFence(s[b.fenceStart..b.fenceEnd])
    requires MermaidLine(s, b.fenceEnd, b.bodyStart)
    requires FindClosing(s, b.bodyStart, b.open, b.fenceEnd) == Some((b.bodyEnd, b.end))
    ensures IsMermaidBlock(s, b)
  {
    ClosingFacts(s, b.bodyStart, b.open, b.fenceEnd, b.bodyEnd, b.end);
  }

  /** The closing line the lazy body stops at: a line break, then the opening line's indentation and fence. */
  lemma ClosingFacts(s: string, from: nat, open: nat, fenceEnd: nat, bodyEnd: nat, end: nat)
    requires open <= fenceEnd <= |s|
    requires FindClosing(s, from, open, fenceEnd) == Some((bodyEnd, end))
    ensures from <= bodyEnd < |s| && s[bodyEnd] == '\n'
    ensures OccursAt(s, s[open..fenceEnd], bodyEnd + 1)
    ensures bodyEnd + 1 + (fenceEnd - open) <= end <= |s|
    ensures forall k :: bodyEnd + 1 + (fenceEnd - open) <= k < end ==> IsBlank(s[k])
    ensures LineEndAhead(s, end)
  {
    assert ClosingAt(s, bodyEnd, open, fenceEnd) == Some(end);
    ClosingAtBlanks(s, bodyEnd, open, fenceEnd);
    RepeatsOccurs(s, open, fenceEnd, bodyEnd + 1);
  }

  /** No match of the block pattern starts in `lo..hi`. */
  predicate NoMatchBetween(s: string, lo: nat, hi: nat)
    decreases hi - lo
  {
    lo >= hi || (MatchAt(s, lo).None? && NoMatchBetween(s, lo + 1, hi))
  }

  /** `NoMatchBetween` says of each position in `lo..hi` that no match starts there. */
  lemma {:induction false} NoMatchBetweenAt(s: string, lo: nat, hi: nat)
    ensures NoMatchBetween(s, lo, hi) <==> forall j :: lo <= j < hi ==> MatchAt(s, j).None?
    decreases hi - lo
  {
    if lo < hi {
      NoMatchBetweenAt(s, lo + 1, hi);
    }
  }

  /** The leftmost match at or after `from`. */
  function Search(s: string, from: nat): (b: Option<Block>)
    ensures b.Some? ==> from <= b.value.start && MatchAt(s, b.value.start) == b
    ensures b.Some? ==> NoMatchBetween(s, from, b.value.start)
    ensures b.None? ==> NoMatchBetween(s, from, |s|)
    decreases |s| - from
  {
    if from >= |s| then None
    else if MatchAt(s, from).Some? then MatchAt(s, from)
    else
      Search(s, from + 1)
  }

  /** The blocks appear in order and do not overlap. */
  predicate Ordered(s: string, bs: seq<Block>) {
    && (forall k :: 0 <= k < |bs| ==> WithinText(s, bs[k]))
    && (forall j, k :: 0 <= j < k < |bs| ==> bs[j].end <= bs[k].start)
  }

  /** Each block is the match of the pattern at its start, at or after `from`. */
  predicate AreMatches(s: string, from: nat, bs: seq<Block>) {
    forall k :: 0 <= k < |bs| ==> from <= bs[k].start && MatchAt(s, bs[k].start) == Some(bs[k])
  }

  /** `finditer` from `from`: each search resumes where the previous match ended. */
  function FindIter(s: string, from: nat): (bs: seq<Block>)
    ensures Ordered(s, bs)
    ensures AreMatches(s, from, bs)
    decreases |s| - from
  {
    match Search(s, from)
    case None => []
    case Some(b) =>
      var rest := FindIter(s, b.end);
      ConsMatches(s, from, b, rest);
      ConsOrdered(s, b, rest);
      [b] + rest
  }

  lemma ConsMatches(s: string, from: nat, b: Block, rest: seq<Block>)
    requires from <= b.start && MatchAt(s, b.start) == Some(b)
    requires AreMatches(s, b.end, rest)
    ensures AreMatches(s, from, [b] + rest)
  {
    var bs := [b] + rest;
    forall k | 0 <= k < |bs|
      ensures from <= bs[k].start && MatchAt(s, bs[k].start) == Some(bs[k])
    {
      if k > 0 {
        assert bs[k] == rest[k - 1];
      }
    }
  }

  lemma ConsOrdered(s: string, b: Block, rest: seq<Block>)
    requires WithinText(s, b)
    requires Ordered(s, rest) && forall k :: 0 <= k < |rest| ==> b.end <= rest[k].start
    ensures Ordered(s, [b] + rest)
  {
    var bs := [b] + rest;
    forall k | 0 <= k < |bs|
      ensures WithinText(s, bs[k])
    {
      if k > 0 {
        assert bs[k] == rest[k - 1];
      }
    }
    forall j, k | 0 <= j < k < |bs|
      ensures bs[j].end <= bs[k].start
    {
      assert bs[k] == rest[k - 1];
      if j > 0 {
        assert bs[j] == rest[j - 1];
      }
    }
  }

  /** `finditer` misses nothing before its first block: none at all when it finds none. */
  lemma FindIterFirst(s: string, from: nat)
    ensures FindIter(s, from) == [] ==> NoMatchBetween(s, from, |s|)
    ensures FindIter(s, from) != [] ==> NoMatchBetween(s, from, FindIter(s, from)[0].start)
  {
    var bs := FindIter(s, from);
    match Search(s, from)
    case None =>
    case Some(b) =>
      assert bs[0] == b;
  }

  /** `finditer` misses nothing between its `k`-th block and the next. */
  lemma FindIterGap(s: string, from: nat, k: nat)
    requires k + 1 < |FindIter(s, from)|
    ensures NoMatchBetween(s, FindIter(s, from)[k].end, FindIter(s, from)[k + 1].start)
  {
    FindIterGaps(s, from);
  }

  /** No match starts between consecutive blocks of `bs`. */
  predicate GapsClear(s: string, bs: seq<Block>) {
    forall k :: 0 <= k < |bs| - 1 ==> NoMatchBetween(s, bs[k].end, bs[k + 1].start)
  }

  lemma {:induction false} FindIterGaps(s: string, from: nat)
    ensures GapsClear(s, FindIter(s, from))
    decreases |s| - from
  {
    if FindIter(s, from) != [] {
      FindIterCons(s, from);
      var b := Search(s, from).value;
      var rest := FindIter(s, b.end);
      FindIterGaps(s, b.end);
      FindIterFirst(s, b.end);
      ConsGaps(s, b, rest);
    }
  }

  /** A block in front keeps the gaps clear when none starts between it and the next. */
  lemma ConsGaps(s: string, b: Block, rest: seq<Block>)
    requires GapsClear(s, rest)
    requires rest != [] ==> NoMatchBetween(s, b.end, rest[0].start)
    ensures GapsClear(s, [b] + rest)
  {
    var bs := [b] + rest;
    forall k | 0 <= k < |bs| - 1
      ensures NoMatchBetween(s, bs[k].end, bs[k + 1].start)
    {
      if k > 0 {
        assert bs[k] == rest[k - 1] && bs[k + 1] == rest[k];
      }
    }
  }

  /** A non-empty `finditer` result is the first match, then `finditer` from where it ends. */
  lemma FindIterCons(s: string, from: nat)
    requires FindIter(s, from) != []
    ensures Search(s, from).Some?
    ensures FindIter(s, from) == [Search(s, from).value] + FindIter(s, Search(s, from).value.end)
  {
  }

  lemma ConsIndex<T>(x: T, xs: seq<T>, i: nat)
    requires 0 < i <= |xs|
    ensures ([x] + xs)[i] == xs[i - 1]
  {
  }

  /** `finditer` misses nothing after its last block. */
  lemma {:induction false} FindIterLast(s: string, from: nat)
    ensures var bs := FindIter(s, from);
      bs != [] ==> NoMatchBetween(s, bs[|bs| - 1].end, |s|)
    decreases |s| - from
  {
    if FindIter(s, from) != [] {
      FindIterCons(s, from);
      var b := Search(s, from).value;
      var rest := FindIter(s, b.end);
      if rest == [] {
        FindIterFirst(s, b.end);
        ConsOne(b, rest);
      } else {
        FindIterLast(s, b.end);
        ConsIndex(b, rest, |rest|);
      }
    }
  }

  lemma ConsOne<T>(x: T, xs: seq<T>)
    requires xs == []
    ensures [x] + xs == [x]
  {
  }

  // ---------------------------------------------------------------------------
  // Segments
  // ---------------------------------------------------------------------------

  /** A stretch of the page between blocks, or one block. */
  datatype Piece = Gap(lo: nat, hi: nat) | Fenced(block: Block)

  function Lo(p: Piece): nat { if p.Gap? then p.lo else p.block.start }
  function Hi(p: Piece): nat { if p.Gap? then p.hi else p.block.end }

  predicate ValidPiece(s: string, p: Piece) {
    match p
    case Gap(lo, hi) => lo < hi <= |s|
    case Fenced(b) => WithinText(s, b)
  }

  /**
   * The pieces the loop has accounted for after the blocks `bs`, and `last_end`:
   * a gap before each block that does not start where the previous one ended.
   */
  function Tiles(s: string, bs: seq<Block>): (t: (seq<Piece>, nat))
    requires Ordered(s, bs)
    ensures t.1 <= |s|
    ensures bs != [] ==> t.1 == bs[|bs| - 1].end
    ensures bs == [] ==> t == ([], 0)
    decreases |bs|
  {
    if bs == [] then ([], 0)
    else
      var (ps, last) := Tiles(s, bs[..|bs| - 1]);
      var b := bs[|bs| - 1];
      assert bs[..|bs| - 1] != [] ==> bs[..|bs| - 1][|bs| - 2] == bs[|bs| - 2];
      (ps + (if b.start > last then [Gap(last, b.start)] else []) + [Fenced(b)], b.end)
  }

  /** The whole page as pieces: the tiles of the blocks `bs`, then the tail after the last one. */
  function PiecesOf(s: string, bs: seq<Block>): (ps: seq<Piece>)
    requires Ordered(s, bs)
  {
    var (ps, last) := Tiles(s, bs);
    ps + (if last < |s| then [Gap(last, |s|)] else [])
  }

  /** The pieces of a page, from the blocks `finditer` finds in it. */
  function Layout(s: string): (ps: seq<Piece>)
  {
    PiecesOf(s, FindIter(s, 0))
  }

  /** The segment a piece becomes: a gap is shown as it is; a block yields its body without surrounding blank lines. */
  function SegmentOf(s: string, p: Piece): (seg: Segment)
    requires ValidPiece(s, p)
    ensures p.Gap? ==> seg == Text(s[p.lo..p.hi]) && seg.content != ""
    ensures p.Fenced? ==> seg.Mermaid? && |seg.content| <= p.block.bodyEnd - p.block.bodyStart
    ensures p.Fenced? && seg.content != "" ==> seg.content[0] != '\n' && seg.content[|seg.content| - 1] != '\n'
  {
    match p
    case Gap(lo, hi) => Text(s[lo..hi])
    case Fenced(b) => Mermaid(StripChar(s[b.bodyStart..b.bodyEnd], '\n'))
  }

  function SegmentsOf(s: string, ps: seq<Piece>): (segs: seq<Segment>)
    requires forall k :: 0 <= k < |ps| ==> ValidPiece(s, ps[k])
    ensures |segs| == |ps|
    ensures forall k :: 0 <= k < |ps| ==> segs[k] == SegmentOf(s, ps[k])
  {
    seq(|ps|, k requires 0 <= k < |ps| => SegmentOf(s, ps[k]))
  }

  /** The pieces run from `lo` to `hi` one after the other, each non-empty. */
  predicate Contiguous(ps: seq<Piece>, lo: nat, hi: nat) {
    if ps == [] then lo == hi
    else Lo(ps[0]) == lo && Lo(ps[0]) < Hi(ps[0]) && Contiguous(ps[1..], Hi(ps[0]), hi)
  }

  lemma {:induction false} ContiguousAppend(ps: seq<Piece>, q: Piece, lo: nat, mid: nat)
    requires Contiguous(ps, lo, mid) && Lo(q) == mid && mid < Hi(q)
    ensures Contiguous(ps + [q], lo, Hi(q))
    decreases |ps|
  {
    if ps == [] {
      assert ([q])[1..] == [];
    } else {
      assert (ps + [q])[1..] == ps[1..] + [q];
      ContiguousAppend(ps[1..], q, Hi(ps[0]), mid);
    }
  }

  /** Every piece the tiles hold is valid, and together they cover `0..last_end`. */
  lemma {:induction false} TilesCover(s: string, bs: seq<Block>)
    requires Ordered(s, bs)
    ensures var (ps, last) := Tiles(s, bs);
      Contiguous(ps, 0, last) && forall k :: 0 <= k < |ps| ==> ValidPiece(s, ps[k])
    decreases |bs|
  {
    if bs != [] {
      var init := bs[..|bs| - 1];
      assert Ordered(s, init);
      TilesCover(s, init);
      var (ps, last) := Tiles(s, init);
      var b := bs[|bs| - 1];
      if init != [] {
        assert init[|init| - 1] == bs[|bs| - 2];
      }
      assert last <= b.start;
      if b.start > last {
        ContiguousAppend(ps, Gap(last, b.start), 0, last);
        ContiguousAppend(ps + [Gap(last, b.start)], Fenced(b), 0, b.start);
        assert ps + [Gap(last, b.start)] + [Fenced(b)] == Tiles(s, bs).0;
      } else {
        ContiguousAppend(ps, Fenced(b), 0, last);
        assert ps + [] == ps;
      }
    }
  }

  /** The pieces of a page tile it from its first character to its last, each non-empty. */
  lemma PiecesCover(s: string, bs: seq<Block>)
    requires Ordered(s, bs)
    ensures Contiguous(PiecesOf(s, bs), 0, |s|)
    ensures forall k :: 0 <= k < |PiecesOf(s, bs)| ==> ValidPiece(s, PiecesOf(s, bs)[k])
  {
    TilesCover(s, bs);
    var (ps, last) := Tiles(s, bs);
    if last < |s| {
      ContiguousAppend(ps, Gap(last, |s|), 0, last);
    } else {
      assert ps + [] == ps;
    }
  }

  lemma LayoutTiles(s: string)
    ensures Contiguous(Layout(s), 0, |s|)
    ensures forall k :: 0 <= k < |Layout(s)| ==> ValidPiece(s, Layout(s)[k])
  {
    PiecesCover(s, FindIter(s, 0));
  }

  /** The text each piece spans, concatenated. */
  function Spanned(s: string, ps: seq<Piece>): string
    requires forall k :: 0 <= k < |ps| ==> Lo(ps[k]) <= Hi(ps[k]) <= |s|
  {
    if ps == [] then "" else s[Lo(ps[0])..Hi(ps[0])] + Spanned(s, ps[1..])
  }

  lemma {:induction false} ContiguousSpans(s: string, ps: seq<Piece>, lo: nat, hi: nat)
    requires hi <= |s| && Contiguous(ps, lo, hi)
    ensures lo <= hi
    ensures forall k :: 0 <= k < |ps| ==> lo <= Lo(ps[k]) < Hi(ps[k]) <= hi
    ensures Spanned(s, ps) == s[lo..hi]
    decreases |ps|
  {
    if ps != [] {
      ContiguousSpans(s, ps[1..], Hi(ps[0]), hi);
      assert forall k :: 1 <= k < |ps| ==> ps[k] == ps[1..][k - 1];
      assert s[lo..Hi(ps[0])] + s[Hi(ps[0])..hi] == s[lo..hi];
    }
  }

  /**
   * Nothing of the page is lost or repeated: the text segments, with each diagram
   * segment put back as the block it came from (fences, opening line and all),
   * concatenate to the page.
   */
  lemma LayoutReconstructs(s: string)
    ensures forall k :: 0 <= k < |Layout(s)| ==> Lo(Layout(s)[k]) < Hi(Layout(s)[k]) <= |s|
    ensures Spanned(s, Layout(s)) == s
  {
    LayoutTiles(s);
    ContiguousSpans(s, Layout(s), 0, |s|);
  }

  /** What `split_markdown_into_segments` returns. */
  function Split(s: string): (segs: seq<Segment>)
  {
    SegmentsAt(s, FindIter(s, 0))
  }

  /** The segments of a page cut around the blocks `bs`. */
  function SegmentsAt(s: string, bs: seq<Block>): (segs: seq<Segment>)
    requires Ordered(s, bs)
  {
    PiecesCover(s, bs);
    SegmentsOf(s, PiecesOf(s, bs))
  }

  /** `split_markdown_into_segments(md)`: the loop over the matches `finditer` yields. */
  method SplitMarkdownIntoSegments(md: string) returns (segments: seq<Segment>)
    ensures segments == Split(md)
  {
    var matches := FindIter(md, 0);
    segments := SegmentsAround(md, matches);
  }

  /**
   * The body of the loop, over the matches `bs`: the text before each match
   * that does not start where the previous one ended, then its diagram; after
   * the loop, the text after the last match.
   */
  method SegmentsAround(md: string, matches: seq<Block>) returns (segments: seq<Segment>)
    requires Ordered(md, matches)
    ensures segments == SegmentsAt(md, matches)
  {
    segments := [];
    var lastEnd := 0;
    ghost var pieces: seq<Piece> := [];
    for i := 0 to |matches|
      invariant Ordered(md, matches[..i])
      invariant (pieces, lastEnd) == Tiles(md, matches[..i])
      invariant forall k :: 0 <= k < |pieces| ==> ValidPiece(md, pieces[k])
      invariant segments == SegmentsOf(md, pieces)
    {
      var m := matches[i];
      SegmentsStep(md, matches, i, pieces, lastEnd);
      ghost var gap := if m.start > lastEnd then [Gap(lastEnd, m.start)] else [];
      if m.start > lastEnd {
        segments := segments + [Text(md[lastEnd..m.start])];
      }
      var code := StripChar(md[m.bodyStart..m.bodyEnd], '\n');
      segments := segments + [Mermaid(code)];
      pieces := pieces + gap + [Fenced(m)];
      lastEnd := m.end;
    }
    assert matches[..|matches|] == matches;
    PiecesCover(md, matches);
    ghost var tail := if lastEnd < |md| then [Gap(lastEnd, |md|)] else [];
    assert PiecesOf(md, matches) == pieces + tail;
    if lastEnd < |md| {
      SegmentsOfAppend(md, pieces, Gap(lastEnd, |md|));
      assert md[lastEnd..] == md[lastEnd..|md|];
      segments := segments + [Text(md[lastEnd..])];
    } else {
      assert pieces + tail == pieces;
    }
  }

  /** One turn of the loop: the tiles and the segments after one more block. */
  lemma SegmentsStep(md: string, matches: seq<Block>, i: nat, pieces: seq<Piece>, lastEnd: nat)
    requires Ordered(md, matches) && i < |matches|
    requires Ordered(md, matches[..i]) && (pieces, lastEnd) == Tiles(md, matches[..i])
    requires forall k :: 0 <= k < |pieces| ==> ValidPiece(md, pieces[k])
    ensures var m := matches[i];
      var gap := if m.start > lastEnd then [Gap(lastEnd, m.start)] else [];
      && lastEnd <= m.start
      && Ordered(md, matches[..i + 1])
      && (pieces + gap + [Fenced(m)], m.end) == Tiles(md, matches[..i + 1])
      && (forall k :: 0 <= k < |pieces + gap + [Fenced(m)]| ==> ValidPiece(md, (pieces + gap + [Fenced(m)])[k]))
      && (m.start > lastEnd ==>
            SegmentsOf(md, pieces + gap + [Fenced(m)]) == SegmentsOf(md, pieces) + [Text(md[lastEnd..m.start])] + [Mermaid(StripChar(md[m.bodyStart..m.bodyEnd], '\n'))])
      && (m.start <= lastEnd ==>
            SegmentsOf(md, pieces + gap + [Fenced(m)]) == SegmentsOf(md, pieces) + [Mermaid(StripChar(md[m.bodyStart..m.bodyEnd], '\n'))])
  {
    var m := matches[i];
    TilesSnoc(md, matches, i);
    var gap := if m.start > lastEnd then [Gap(lastEnd, m.start)] else [];
    if m.start > lastEnd {
      SegmentsOfAppend(md, pieces, Gap(lastEnd, m.start));
    } else {
      assert pieces + gap == pieces;
    }
    SegmentsOfAppend(md, pieces + gap, Fenced(m));
  }

  /** The tiles after one more block: a gap when it does not start where the last one ended, then the block. */
  lemma TilesSnoc(s: string, bs: seq<Block>, i: nat)
    requires Ordered(s, bs) && i < |bs|
    ensures Ordered(s, bs[..i]) && Ordered(s, bs[..i + 1])
    ensures Tiles(s, bs[..i]).1 <= bs[i].start
    ensures var (ps, last) := Tiles(s, bs[..i]);
      Tiles(s, bs[..i + 1]) == (ps + (if bs[i].start > last then [Gap(last, bs[i].start)] else []) + [Fenced(bs[i])], bs[i].end)
    ensures var (ps, last) := Tiles(s, bs[..i + 1]);
      forall k :: 0 <= k < |ps| ==> ValidPiece(s, ps[k])
  {
    assert bs[..i + 1][..i] == bs[..i];
    assert bs[..i + 1][i] == bs[i];
    assert Ordered(s, bs[..i + 1]);
    TilesCover(s, bs[..i + 1]);
    if i > 0 {
      assert Tiles(s, bs[..i]).1 == bs[i - 1].end;
    }
  }

  lemma SegmentsOfAppend(s: string, ps: seq<Piece>, q: Piece)
    requires forall k :: 0 <= k < |ps| ==> ValidPiece(s, ps[k])
    requires ValidPiece(s, q)
    ensures forall k :: 0 <= k < |ps + [q]| ==> ValidPiece(s, (ps + [q])[k])
    ensures SegmentsOf(s, ps + [q]) == SegmentsOf(s, ps) + [SegmentOf(s, q)]
  {
    assert forall k :: 0 <= k < |ps| ==> (ps + [q])[k] == ps[k];
  }

  /** Every block among the pieces `ps` is one of `bs`. */
  predicate BlocksAmong(ps: seq<Piece>, bs: seq<Block>) {
    forall k :: 0 <= k < |ps| && ps[k].Fenced? ==> ps[k].block in bs
  }

  /** No two gaps follow each other. */
  predicate NoAdjacentGaps(ps: seq<Piece>) {
    forall k :: 0 <= k < |ps| - 1 ==> ps[k].Fenced? || ps[k + 1].Fenced?
  }

  /** The tiles hold only the blocks they were cut around, and never two gaps in a row. */
  lemma {:induction false} TilesFenced(s: string, bs: seq<Block>)
    requires Ordered(s, bs)
    ensures BlocksAmong(Tiles(s, bs).0, bs)
    ensures NoAdjacentGaps(Tiles(s, bs).0)
    decreases |bs|
  {
    if bs != [] {
      var init := bs[..|bs| - 1];
      assert Ordered(s, init);
      TilesFenced(s, init);
      var ps := Tiles(s, init).0;
      assert forall b :: b in init ==> b in bs;
      assert forall k :: 0 <= k < |ps| ==> (ps + [Gap(0, 0)])[k] == ps[k];
    }
  }

  /** Every block `finditer` yields is a Mermaid block. */
  lemma FindIterShapes(s: string, from: nat)
    ensures forall k :: 0 <= k < |FindIter(s, from)| ==> IsMermaidBlock(s, FindIter(s, from)[k])
  {
    var bs := FindIter(s, from);
    forall k | 0 <= k < |bs|
      ensures IsMermaidBlock(s, bs[k])
    {
      MatchAtShape(s, bs[k].start);
    }
  }

  /**
   * The segments around Mermaid blocks `bs`, piece by piece: a gap between
   * blocks is shown as it is and is never next to another gap, and each diagram
   * is the body of its block without the line breaks around it.
   */
  lemma SegmentsAtPieces(s: string, bs: seq<Block>)
    requires Ordered(s, bs)
    requires forall k :: 0 <= k < |bs| ==> IsMermaidBlock(s, bs[k])
    ensures var ps := PiecesOf(s, bs);
      |SegmentsAt(s, bs)| == |ps| &&
      forall k :: 0 <= k < |ps| ==> (
        && ValidPiece(s, ps[k])
        && (ps[k].Gap? ==> SegmentsAt(s, bs)[k] == Text(s[ps[k].lo..ps[k].hi]) && ps[k].lo < ps[k].hi)
        && (ps[k].Fenced? ==>
          SegmentsAt(s, bs)[k] == Mermaid(StripChar(s[ps[k].block.bodyStart..ps[k].block.bodyEnd], '\n'))))
    ensures var ps := PiecesOf(s, bs);
      forall k :: 0 <= k < |ps| && ps[k].Fenced? ==> IsMermaidBlock(s, ps[k].block)
    ensures var ps := PiecesOf(s, bs);
      forall k :: 0 <= k < |ps| - 1 ==> SegmentsAt(s, bs)[k].Mermaid? || SegmentsAt(s, bs)[k + 1].Mermaid?
  {
    SegmentsAtLayout(s, bs);
    FencedPiecesAreBlocks(s, bs);
    var ps := PiecesOf(s, bs);
    forall k | 0 <= k < |ps| && ps[k].Fenced?
      ensures IsMermaidBlock(s, ps[k].block)
    {
      var j :| 0 <= j < |bs| && bs[j] == ps[k].block;
    }
  }

  /** The segments piece by piece, for any ordered blocks. */
  lemma SegmentsAtLayout(s: string, bs: seq<Block>)
    requires Ordered(s, bs)
    ensures var ps := PiecesOf(s, bs);
      |SegmentsAt(s, bs)| == |ps| &&
      forall k :: 0 <= k < |ps| ==> (
        && ValidPiece(s, ps[k])
        && (ps[k].Gap? ==> SegmentsAt(s, bs)[k] == Text(s[ps[k].lo..ps[k].hi]) && ps[k].lo < ps[k].hi)
        && (ps[k].Fenced? ==>
          SegmentsAt(s, bs)[k] == Mermaid(StripChar(s[ps[k].block.bodyStart..ps[k].block.bodyEnd], '\n'))))
    ensures var ps := PiecesOf(s, bs);
      forall k :: 0 <= k < |ps| - 1 ==> SegmentsAt(s, bs)[k].Mermaid? || SegmentsAt(s, bs)[k + 1].Mermaid?
  {
    PiecesCover(s, bs);
    TilesFenced(s, bs);
    var (ts, last) := Tiles(s, bs);
    var ps := PiecesOf(s, bs);
    assert ps == ts + (if last < |s| then [Gap(last, |s|)] else []);
    forall k | 0 <= k < |ps| - 1
      ensures ps[k].Fenced? || ps[k + 1].Fenced?
    {
      if k + 1 == |ts| {
        assert bs != [];
        assert ts[k] == Fenced(bs[|bs| - 1]);
        assert ps[k] == ts[k];
      } else if k + 1 < |ts| {
        assert ps[k] == ts[k] && ps[k + 1] == ts[k + 1];
      }
    }
  }

  /** The block of every fenced piece is one of the blocks the pieces are laid out around. */
  lemma FencedPiecesAreBlocks(s: string, bs: seq<Block>)
    requires Ordered(s, bs)
    ensures var ps := PiecesOf(s, bs);
      forall k :: 0 <= k < |ps| && ps[k].Fenced? ==> ps[k].block in bs
  {
    TilesFenced(s, bs);
    var (ts, last) := Tiles(s, bs);
    var ps := PiecesOf(s, bs);
    assert ps == ts + (if last < |s| then [Gap(last, |s|)] else []);
    forall k | 0 <= k < |ps| && ps[k].Fenced?
      ensures ps[k].block in bs
    {
      assert k < |ts| && ps[k] == ts[k];
    }
  }

  /** `split_markdown_into_segments`, piece by piece over the page's layout. */
  lemma SplitPieces(s: string)
    ensures var ps := Layout(s);
      |Split(s)| == |ps| &&
      forall k :: 0 <= k < |ps| ==> (
        && ValidPiece(s, ps[k])
        && (ps[k].Gap? ==> Split(s)[k] == Text(s[ps[k].lo..ps[k].hi]) && ps[k].lo < ps[k].hi)
        && (ps[k].Fenced? ==> (
          && IsMermaidBlock(s, ps[k].block)
          && Split(s)[k] == Mermaid(StripChar(s[ps[k].block.bodyStart..ps[k].block.bodyEnd], '\n')))))
    ensures forall k :: 0 <= k < |Split(s)| - 1 ==> Split(s)[k].Mermaid? || Split(s)[k + 1].Mermaid?
  {
    FindIterShapes(s, 0);
    SegmentsAtPieces(s, FindIter(s, 0));
  }

  /** An empty page has no segments. */
  lemma SplitEmpty()
    ensures Split("") == []
  {
    assert FindIter("", 0) == [];
  }

  /** A page without a Mermaid block is one text segment, the page itself. */
  lemma SplitWithoutBlocks(s: string)
    requires s != "" && NoMatchBetween(s, 0, |s|)
    ensures Split(s) == [Text(s)]
  {
    NoBlocksFound(s);
    assert Layout(s) == [Gap(0, |s|)];
    assert s[0..|s|] == s;
  }

  /** A page with a line of text, a blank line and a one-line diagram. */
  const IntroPage := "intro\n\n```mermaid\nA\n```"

  /** The block `finditer` finds in `IntroPage`: from the line break before its fence to the end. */
  const IntroBlock := Block(6, 7, 7, 10, 18, 19, 23)

  /**
   * The line break just before an opening fence belongs to the block, so the text
   * in front of the block keeps every earlier line break.
   */
  lemma IntroKeepsLineBreak()
    ensures Split(IntroPage)[0] == Text("intro\n")
  {
    var s := IntroPage;
    IntroChars(s);
    IntroBlocks(s);
    IntroSplit(s);
  }

  /** What the proofs about `IntroPage` need to know of its characters. */
  predicate IntroShape(s: string) {
    && |s| == 23 && s[0] == 'i' && s[5] == s[6] == '\n' && (forall j :: 1 <= j < 5 ==> s[j] != '\n')
    && s[7..10] == "```" && s[10..17] == Keyword && s[17] == '\n'
    && s[18] == 'A' && s[19] == '\n' && s[20..23] == "```"
  }

  /** With that one block, the first piece is the text before it. */
  lemma IntroSplit(s: string)
    requires |s| == 23 && FindIter(s, 0) == [IntroBlock]
    ensures Split(s)[0] == Text(s[..6])
  {
    assert Layout(s) == [Gap(0, 6), Fenced(IntroBlock)];
  }

  /** `finditer` finds exactly that block, and nothing after it. */
  lemma IntroBlocks(s: string)
    requires IntroShape(s)
    ensures FindIter(s, 0) == [IntroBlock]
  {
    IntroSearch(s);
    assert FindIter(s, IntroBlock.end) == [];
  }

  /** The first match starts at the line break before the fence. */
  lemma IntroSearch(s: string)
    requires IntroShape(s)
    ensures Search(s, 0) == Some(IntroBlock)
  {
    NoMatchBeforeBreak(s);
    IntroMatch(s);
    SearchFirst(s, 0, 6);
  }

  /** `IntroPage` has that shape. */
  lemma IntroChars(s: string)
    requires s == IntroPage
    ensures IntroShape(s) && s[..6] == "intro\n"
  {
  }

  /** In a page that opens `intro` and a blank line, no match starts before the blank line. */
  lemma NoMatchBeforeBreak(s: string)
    requires |s| > 7 && s[0] == 'i' && s[5] == s[6] == '\n'
    requires forall j :: 1 <= j < 5 ==> s[j] != '\n'
    ensures forall j :: 0 <= j < 6 ==> MatchAt(s, j).None?
  {
    assert SkipBlanks(s, 0) == 0 && SkipBlanks(s, 6) == 6;
  }

  /** At the line break before the fence, the whole block matches. */
  lemma IntroMatch(s: string)
    requires |s| == 23 && s[5] == s[6] == '\n'
    requires s[7..10] == "```" && s[10..17] == Keyword && s[17] == '\n'
    requires s[18] == 'A' && s[19] == '\n' && s[20..23] == "```"
    ensures MatchAt(s, 6) == Some(IntroBlock)
  {
    IntroOpening(s);
    assert s[18] != '\n';
    assert Repeats(s, 7, 20, 3) by {
      assert s[7..10] == s[20..23];
      RepeatsOccurs(s, 7, 10, 20);
    }
    assert SkipBlanks(s, 23) == 23;
    assert ClosingAt(s, 18, 7, 10) == None;
    assert ClosingAt(s, 19, 7, 10) == Some(23);
    assert FindClosing(s, 18, 7, 10) == Some((19, 23));
  }

  /** The opening line: a three-backtick fence, `mermaid`, and the line break. */
  lemma IntroOpening(s: string)
    requires |s| > 17 && s[7..10] == "```" && s[10..17] == Keyword && s[17] == '\n'
    ensures OpeningAt(s, 7) == Some((7, 10, 18))
  {
    assert s[7] == s[8] == s[9] == '`' && s[10] == 'm';
    assert SkipBlanks(s, 7) == 7;
    assert RunOf(s, 10, '`') == 10;
    assert RunOf(s, 9, '`') == 10;
    assert RunOf(s, 8, '`') == 10;
    assert RunOf(s, 7, '`') == 10;
    assert SkipBlanks(s, 10) == 10;
    assert HasAtIgnoreCase(s, 10, Keyword) by {
      forall k | 0 <= k < |Keyword|
        ensures FoldChar(s[10 + k]) == Keyword[k]
      {
        assert s[10 + k] == Keyword[k];
      }
      HasAtFolded(s, 10, Keyword);
    }
    assert NextNewline(s, 17) == Some(17);
  }

  /** The search finds the first position where a match starts. */
  lemma SearchFirst(s: string, from: nat, p: nat)
    requires from <= p && MatchAt(s, p).Some?
    requires forall j :: from <= j < p ==> MatchAt(s, j).None?
    ensures Search(s, from) == MatchAt(s, p)
  {
    SearchNotLater(s, from, p);
    SearchNotEarlier(s, from, p);
    var b := Search(s, from);
    assert b.value.start == p;
    assert MatchAt(s, b.value.start) == b;
  }

  /** With no match in `from..p`, the search finds nothing before `p`. */
  lemma SearchNotEarlier(s: string, from: nat, p: nat)
    requires forall j :: from <= j < p ==> MatchAt(s, j).None?
    ensures Search(s, from).Some? ==> Search(s, from).value.start >= p
  {
    var b := Search(s, from);
    if b.Some? && b.value.start < p {
      assert false;
    }
  }

  /** A match at `p` leaves the search nothing later than `p` to find. */
  lemma SearchNotLater(s: string, from: nat, p: nat)
    requires from <= p && MatchAt(s, p).Some?
    ensures Search(s, from).Some? && Search(s, from).value.start <= p
  {
    var b := Search(s, from);
    if b.None? {
      NoMatchBetweenAt(s, from, |s|);
      assert false;
    } else if b.value.start > p {
      NoMatchBetweenAt(s, from, b.value.start);
      assert false;
    }
  }



  lemma NoBlocksFound(s: string)
    requires NoMatchBetween(s, 0, |s|)
    ensures FindIter(s, 0) == []
  {
    NoMatchBetweenAt(s, 0, |s|);
    assert Search(s, 0) == None;
  }
}
