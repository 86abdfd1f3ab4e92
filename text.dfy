/**
 * The parts of Python's `str` that the wiki pipeline relies on, each with the
 * semantics CPython gives it: whitespace as `str.isspace()`, `strip`, substring
 * search, `replace`, `split`/`join`, `splitlines`, slicing from the end, and the
 * case folding that the `re.IGNORECASE` flag applies to ASCII letters.
 */
module Text {
  import opened Outcomes

  function Min(a: int, b: int): int { if a <= b then a else b }
  function Max(a: int, b: int): int { if a >= b then a else b }

  // ---------------------------------------------------------------------------
  // Whitespace and strip()
  // ---------------------------------------------------------------------------

  /** `str.isspace()`: the characters `strip()` removes and the regex class `\s` matches. */
  predicate IsSpace(c: char) {
    ('\t' <= c <= '\r') || ('\U{1C}' <= c <= ' ') || c == '\U{85}' || c == '\U{A0}'
    || c == '\U{1680}' || ('\U{2000}' <= c <= '\U{200A}') || c == '\U{2028}'
    || c == '\U{2029}' || c == '\U{202F}' || c == '\U{205F}' || c == '\U{3000}'
  }

  /** Neither end of `s` is whitespace. */
  predicate IsTrimmed(s: string) {
    s == [] || (!IsSpace(s[0]) && !IsSpace(s[|s| - 1]))
  }

  /** Number of whitespace characters at the front of `s`. */
  function LeadingSpace(s: string): (n: nat)
    ensures n <= |s|
    ensures forall i :: 0 <= i < n ==> IsSpace(s[i])
    ensures n < |s| ==> !IsSpace(s[n])
    decreases |s|
  {
    if |s| > 0 && IsSpace(s[0]) then 1 + LeadingSpace(s[1..]) else 0
  }

  /** Index just after the last non-whitespace character of `s`. */
  function TrailingStart(s: string): (n: nat)
    ensures n <= |s|
    ensures forall i :: n <= i < |s| ==> IsSpace(s[i])
    ensures n > 0 ==> !IsSpace(s[n - 1])
    decreases |s|
  {
    if |s| > 0 && IsSpace(s[|s| - 1]) then TrailingStart(s[..|s| - 1]) else |s|
  }

  /** Python's `s.strip()`. */
  function Strip(s: string): (r: string)
    ensures IsTrimmed(r)
    ensures |r| <= |s|
    ensures IsTrimmed(s) ==> r == s
  {
    var t := s[LeadingSpace(s)..];
    t[..TrailingStart(t)]
  }

  /** `strip()` removes whitespace from the two ends and nothing else. */
  lemma StripSlice(s: string) returns (a: nat, b: nat)
    ensures a <= b <= |s| && Strip(s) == s[a..b]
    ensures forall i :: 0 <= i < a ==> IsSpace(s[i])
    ensures forall i :: b <= i < |s| ==> IsSpace(s[i])
  {
    a := LeadingSpace(s);
    var t := s[a..];
    b := a + TrailingStart(t);
    assert forall i :: b <= i < |s| ==> s[i] == t[i - a];
  }

  /** Stripping text framed by whitespace gives back the text, when it is trimmed itself. */
  lemma StripFramed(a: string, m: string, b: string)
    requires forall i :: 0 <= i < |a| ==> IsSpace(a[i])
    requires forall i :: 0 <= i < |b| ==> IsSpace(b[i])
    requires m != [] && !IsSpace(m[0]) && !IsSpace(m[|m| - 1])
    ensures Strip(a + m + b) == m
  {
    var s := a + m + b;
    var x, y := StripSlice(s);
    assert s[|a|] == m[0] && s[|a| + |m| - 1] == m[|m| - 1];
    assert x <= |a|;
    assert y >= |a| + |m|;
    assert s[|a|..|a| + |m|] == m;
  }

  // ---------------------------------------------------------------------------
  // Substrings
  // ---------------------------------------------------------------------------

  predicate OccursAt(s: string, t: string, i: nat) {
    i + |t| <= |s| && s[i..i + |t|] == t
  }

  /** Python's `t in s`. */
  predicate Contains(s: string, t: string) {
    exists i :: 0 <= i <= |s| - |t| && OccursAt(s, t, i)
  }

  predicate EndsWith(s: string, t: string) {
    |t| <= |s| && s[|s| - |t|..] == t
  }

  /** Leftmost occurrence of `t` in `s` at or after `from` (`s.find(t, from)`, None for -1). */
  function FindFrom(s: string, t: string, from: nat): (r: Option<nat>)
    ensures r.Some? ==> from <= r.value && OccursAt(s, t, r.value)
    ensures r.Some? ==> forall j :: from <= j < r.value ==> !OccursAt(s, t, j)
    ensures r.None? ==> forall j: nat :: from <= j ==> !OccursAt(s, t, j)
    decreases |s| - from
  {
    if from + |t| > |s| then None
    else if OccursAt(s, t, from) then Some(from)
    else FindFrom(s, t, from + 1)
  }

  /** A one-character text occurs exactly where that character stands. */
  lemma OccursAtChar(s: string, c: char, j: nat)
    ensures OccursAt(s, [c], j) <==> j < |s| && s[j] == c
  {
    if j < |s| {
      assert s[j..j + 1] == [s[j]];
    }
  }

  /** A string without `p` has no slice with `p`. */
  lemma SliceKeepsAbsence(s: string, p: string, a: nat, b: nat)
    requires a <= b <= |s| && !Contains(s, p)
    ensures !Contains(s[a..b], p)
  {
    if Contains(s[a..b], p) {
      var i :| 0 <= i <= |s[a..b]| - |p| && OccursAt(s[a..b], p, i);
      forall k | 0 <= k < |p|
        ensures s[a + i + k] == p[k]
      {
        assert s[a..b][i..i + |p|][k] == p[k];
      }
      assert s[a + i..a + i + |p|] == p;
      assert OccursAt(s, p, a + i);
    }
  }

  /** An occurrence of a text that neither starts nor ends with whitespace survives `strip()`. */
  lemma StripKeeps(s: string, x: string, i: nat)
    requires OccursAt(s, x, i) && x != [] && IsTrimmed(x)
    ensures Contains(Strip(s), x)
  {
    var a, b := StripSlice(s);
    assert s[i] == x[0];
    assert s[i + |x| - 1] == x[|x| - 1];
    assert a <= i && i + |x| <= b;
    assert s[a..b][i - a..i - a + |x|] == s[i..i + |x|];
    assert Strip(s)[i - a..i - a + |x|] == s[i..i + |x|];
    assert OccursAt(Strip(s), x, i - a);
  }

  // ---------------------------------------------------------------------------
  // Case-insensitive matching
  // ---------------------------------------------------------------------------

  /**
   * The character that `re.IGNORECASE` compares with a lower-case ASCII letter of a
   * pattern: ASCII capitals, and the four non-ASCII characters CPython's regex engine
   * treats as case variants of `i`, `s` and `k`. Every other character stands for itself.
   */
  function FoldChar(c: char): char {
    if 'A' <= c <= 'Z' then (c as int + 32) as char
    else if c == '\U{130}' || c == '\U{131}' then 'i'
    else if c == '\U{17F}' then 's'
    else if c == '\U{212A}' then 'k'
    else c
  }

  function FoldCase(s: string): (r: string)
    ensures |r| == |s|
    ensures forall i :: 0 <= i < |s| ==> r[i] == FoldChar(s[i])
  {
    seq(|s|, i requires 0 <= i < |s| => FoldChar(s[i]))
  }

  lemma FoldCaseSlice(s: string, a: nat, b: nat)
    requires a <= b <= |s|
    ensures FoldCase(s[a..b]) == FoldCase(s)[a..b]
  {
  }

  /**
   * `str.lower()` of one character, as far as it can yield ASCII: capitals become
   * small letters, the Kelvin sign becomes `k`, and a dotted capital I becomes `i`
   * followed by a combining dot. Other characters are kept as they are.
   */
  function LowerChar(c: char): string {
    if 'A' <= c <= 'Z' then [(c as int + 32) as char]
    else if c == '\U{212A}' then "k"
    else if c == '\U{130}' then "i\U{307}"
    else [c]
  }

  /** `s.lower()`, character by character. */
  function Lower(s: string): (r: string)
    ensures |r| >= |s|
    ensures forall i :: 0 <= i < |r| ==> !('A' <= r[i] <= 'Z')
  {
    if s == [] then [] else Lower(s[..|s| - 1]) + LowerChar(s[|s| - 1])
  }

  lemma {:induction false} LowerAppend(a: string, b: string)
    ensures Lower(a + b) == Lower(a) + Lower(b)
    decreases |b|
  {
    if b == [] {
      assert a + b == a;
    } else {
      assert (a + b)[..|a + b| - 1] == a + b[..|b| - 1];
      LowerAppend(a, b[..|b| - 1]);
    }
  }

  /** Lowering twice is lowering once. */
  lemma {:induction false} LowerIdempotent(s: string)
    ensures Lower(Lower(s)) == Lower(s)
    decreases |s|
  {
    if s != [] {
      var init := s[..|s| - 1];
      var c := s[|s| - 1];
      LowerIdempotent(init);
      LowerAppend(Lower(init), LowerChar(c));
      LowerCharStable(c);
    }
  }

  lemma LowerCharStable(c: char)
    ensures Lower(LowerChar(c)) == LowerChar(c)
  {
    if 'A' <= c <= 'Z' {
      LowerOne((c as int + 32) as char);
    } else if c == '\U{212A}' {
      LowerOne('k');
    } else if c == '\U{130}' {
      LowerOne('i');
      LowerOne('\U{307}');
      LowerAppend("i", "\U{307}");
      assert "i\U{307}" == "i" + "\U{307}";
    } else {
      LowerOne(c);
    }
  }

  /** Text without capitals, Kelvin signs or dotted capital I is its own lower case. */
  lemma {:induction false} LowerFixes(s: string)
    requires forall i :: 0 <= i < |s| ==> !('A' <= s[i] <= 'Z') && s[i] != '\U{212A}' && s[i] != '\U{130}'
    ensures Lower(s) == s
    decreases |s|
  {
    if s != [] {
      LowerFixes(s[..|s| - 1]);
      assert s == s[..|s| - 1] + [s[|s| - 1]];
    }
  }

  lemma LowerOne(c: char)
    ensures Lower([c]) == LowerChar(c)
  {
    assert [c][..0] == [];
  }

  /** `p` (written in lower case) occurs at `i` of `s` when case is ignored. */
  predicate OccursAtIgnoreCase(s: string, p: string, i: nat) {
    OccursAt(FoldCase(s), p, i)
  }

  // ---------------------------------------------------------------------------
  // replace()
  // ---------------------------------------------------------------------------

  /**
   * `s.replace(p, r)`, which is also `re.sub(p, r, s)` for a pattern free of
   * metacharacters: occurrences of `p`, found leftmost first and without overlap,
   * become `r`.
   */
  function ReplaceAll(s: string, p: string, r: string): (t: string)
    requires p != []
    ensures |r| <= |p| ==> |t| <= |s|
    decreases |s|
  {
    if |s| < |p| then s
    else if p <= s then r + ReplaceAll(s[|p|..], p, r)
    else [s[0]] + ReplaceAll(s[1..], p, r)
  }

  /** Replacing a text that does not occur changes nothing. */
  lemma {:induction false} ReplaceAbsent(s: string, p: string, r: string)
    requires p != [] && !Contains(s, p)
    ensures ReplaceAll(s, p, r) == s
    decreases |s|
  {
    if |s| >= |p| {
      assert !OccursAt(s, p, 0);
      assert s[..|p|] != p;
      SliceKeepsAbsence(s, p, 1, |s|);
      assert s[1..|s|] == s[1..];
      ReplaceAbsent(s[1..], p, r);
      assert [s[0]] + s[1..] == s;
    }
  }

  /** An occurrence at the start is replaced. */
  lemma ReplaceAtStart(s: string, p: string, r: string)
    requires p != [] && OccursAt(s, p, 0)
    ensures ReplaceAll(s, p, r) == r + ReplaceAll(s[|p|..], p, r)
  {
    assert s[..|p|] == p;
  }

  /** A first character that does not start an occurrence is copied. */
  lemma ReplaceSkipStart(s: string, p: string, r: string)
    requires p != [] && |p| < |s| && !OccursAt(s, p, 0)
    ensures ReplaceAll(s, p, r) == [s[0]] + ReplaceAll(s[1..], p, r)
  {
    assert s[0..|p|] == s[..|p|];
  }

  /** A first occurrence at `k >= 1` is, one character further on, a first occurrence at `k - 1`. */
  lemma FirstOccursShift(s: string, p: string, k: nat)
    requires 1 <= k && OccursAt(s, p, k)
    requires forall j :: 0 <= j < k ==> !OccursAt(s, p, j)
    ensures OccursAt(s[1..], p, k - 1)
    ensures forall j :: 0 <= j < k - 1 ==> !OccursAt(s[1..], p, j)
  {
    var t := s[1..];
    assert t[k - 1..k - 1 + |p|] == s[k..k + |p|];
    forall j | 0 <= j < k - 1
      ensures !OccursAt(t, p, j)
    {
      assert t[j..j + |p|] == s[j + 1..j + 1 + |p|];
      assert !OccursAt(s, p, j + 1);
    }
  }

  /**
   * Up to the first occurrence of `p` the text is copied; that occurrence becomes
   * `r`, and the replacement goes on after it.
   */
  lemma {:induction false} ReplaceSplit(s: string, p: string, r: string, k: nat)
    requires p != [] && OccursAt(s, p, k)
    requires forall j :: 0 <= j < k ==> !OccursAt(s, p, j)
    ensures ReplaceAll(s, p, r) == s[..k] + r + ReplaceAll(s[k + |p|..], p, r)
    decreases k
  {
    if k == 0 {
      ReplaceAtStart(s, p, r);
    } else {
      FirstOccursShift(s, p, k);
      ReplaceSplit(s[1..], p, r, k - 1);
      assert s[1..][k - 1 + |p|..] == s[k + |p|..];
      ReplaceSplitStep(s, p, r, k, ReplaceAll(s[k + |p|..], p, r));
    }
  }

  /** Putting the first character back in front of a split of the rest. */
  lemma ReplaceSplitStep(s: string, p: string, r: string, k: nat, rest: string)
    requires p != [] && 1 <= k && k + |p| <= |s| && !OccursAt(s, p, 0)
    requires ReplaceAll(s[1..], p, r) == s[1..][..k - 1] + r + rest
    ensures ReplaceAll(s, p, r) == s[..k] + r + rest
  {
    ReplaceSkipStart(s, p, r);
    assert [s[0]] + s[1..][..k - 1] == s[..k];
  }

  /** `s.replace(a, b)` for single characters. */
  function ReplaceChar(s: string, a: char, b: char): (r: string)
    ensures |r| == |s|
    ensures a != b ==> a !in r
    ensures forall i :: 0 <= i < |s| && s[i] != a ==> r[i] == s[i]
  {
    seq(|s|, i requires 0 <= i < |s| => if s[i] == a then b else s[i])
  }

  /** The character replacement is `replace` specialised to one-character texts. */
  lemma {:induction false} ReplaceCharIsReplaceAll(s: string, a: char, b: char)
    ensures ReplaceAll(s, [a], [b]) == ReplaceChar(s, a, b)
    decreases |s|
  {
    if |s| >= 1 {
      ReplaceCharIsReplaceAll(s[1..], a, b);
      if [a] <= s {
        assert ReplaceChar(s, a, b) == [b] + ReplaceChar(s[1..], a, b);
      } else {
        assert ReplaceChar(s, a, b) == [s[0]] + ReplaceChar(s[1..], a, b);
      }
    }
  }

  // ---------------------------------------------------------------------------
  // Slicing
  // ---------------------------------------------------------------------------

  /** `s[:n]`. */
  function Take(s: string, n: nat): (r: string)
    ensures |r| == Min(|s|, n) && r <= s
  {
    if |s| <= n then s else s[..n]
  }

  /** `s[-n:]` for a positive `n`: the last `n` characters, or all of `s` when it is shorter. */
  function Last(s: string, n: nat): (r: string)
    ensures |r| == Min(|s|, n) && EndsWith(s, r)
  {
    if |s| <= n then s else s[|s| - n..]
  }

  /** `s * n`: `n` copies of `s`, none when `n` is not positive. */
  function Repeat(s: string, n: int): (r: string)
    ensures |r| == Max(n, 0) * |s|
    decreases Max(n, 0)
  {
    if n <= 0 then "" else s + Repeat(s, n - 1)
  }

  // ---------------------------------------------------------------------------
  // strip(chars) for one character
  // ---------------------------------------------------------------------------

  function LStripChar(s: string, c: char): (r: string)
    ensures EndsWith(s, r)
    ensures r != [] ==> r[0] != c
    ensures forall i :: 0 <= i < |s| - |r| ==> s[i] == c
    decreases |s|
  {
    if |s| > 0 && s[0] == c then LStripChar(s[1..], c) else s
  }

  /** `s.rstrip(c)`. */
  function RStripChar(s: string, c: char): (r: string)
    ensures r <= s
    ensures r != [] ==> r[|r| - 1] != c
    ensures forall i :: |r| <= i < |s| ==> s[i] == c
    decreases |s|
  {
    if |s| > 0 && s[|s| - 1] == c then RStripChar(s[..|s| - 1], c) else s
  }

  /** `s.strip(c)`: the run of `c` at each end is removed. */
  function StripChar(s: string, c: char): (r: string)
    ensures |r| <= |s|
    ensures r != [] ==> r[0] != c && r[|r| - 1] != c
  {
    RStripChar(LStripChar(s, c), c)
  }

  // ---------------------------------------------------------------------------
  // split() and join()
  // ---------------------------------------------------------------------------

  /** `sep.join(parts)`. */
  function Join(parts: seq<string>, sep: string): string
    decreases |parts|
  {
    if |parts| == 0 then ""
    else if |parts| == 1 then parts[0]
    else parts[0] + sep + Join(parts[1..], sep)
  }

  /** Joining keeps the parts in order: appending a part appends the separator and the part. */
  lemma {:induction false} JoinAppend(parts: seq<string>, x: string, sep: string)
    requires parts != []
    ensures Join(parts + [x], sep) == Join(parts, sep) + sep + x
    decreases |parts|
  {
    if |parts| == 1 {
      assert parts + [x] == [parts[0], x];
    } else {
      assert (parts + [x])[1..] == parts[1..] + [x];
      JoinAppend(parts[1..], x, sep);
    }
  }

  /** A leading and a trailing empty part add a separator at each end. */
  lemma JoinFramed(parts: seq<string>, sep: string)
    requires parts != []
    ensures Join([""] + parts + [""], sep) == sep + Join(parts, sep) + sep
  {
    JoinAppend([""] + parts, "", sep);
    assert ([""] + parts)[1..] == parts;
  }

  /** `sep.join(parts)` begins as its first part does. */
  lemma JoinStart(parts: seq<string>, sep: string)
    requires parts != [] && parts[0] != []
    ensures var j := Join(parts, sep); j != [] && j[0] == parts[0][0]
  {
  }

  /** A string that ends with `t` still does after something is put in front of it. */
  lemma EndsWithPrepend(a: string, b: string, t: string)
    requires EndsWith(b, t)
    ensures EndsWith(a + b, t)
  {
    assert (a + b)[|a + b| - |t|..] == b[|b| - |t|..];
  }

  /** `sep.join(parts)` ends with its last part. */
  lemma {:induction false} JoinEndsWithLast(parts: seq<string>, sep: string)
    requires parts != []
    ensures EndsWith(Join(parts, sep), parts[|parts| - 1])
    decreases |parts|
  {
    if |parts| == 1 {
      assert Join(parts, sep)[|parts[0]| - |parts[0]|..] == parts[0];
    } else {
      JoinEndsWithLast(parts[1..], sep);
      EndsWithPrepend(parts[0] + sep, Join(parts[1..], sep), parts[|parts| - 1]);
    }
  }

  /** `sep.join(parts)` ends with its last two parts and the separator between them. */
  lemma {:induction false} JoinEndsWithLastTwo(parts: seq<string>, sep: string)
    requires |parts| >= 2
    ensures EndsWith(Join(parts, sep), parts[|parts| - 2] + sep + parts[|parts| - 1])
    decreases |parts|
  {
    var n := |parts|;
    var t := parts[n - 2] + sep + parts[n - 1];
    if n == 2 {
      assert Join(parts, sep) == t;
      assert t[|t| - |t|..] == t;
    } else {
      JoinEndsWithLastTwo(parts[1..], sep);
      EndsWithPrepend(parts[0] + sep, Join(parts[1..], sep), t);
    }
  }

  /** With three parts or more, the separator also stands just before the last two parts. */
  lemma {:induction false} JoinSepBeforeLastTwo(parts: seq<string>, sep: string)
    requires |parts| >= 3
    ensures EndsWith(Join(parts, sep), sep + parts[|parts| - 2] + sep + parts[|parts| - 1])
    decreases |parts|
  {
    var n := |parts|;
    var t := sep + parts[n - 2] + sep + parts[n - 1];
    var rest := parts[1..];
    if n == 3 {
      assert Join(rest, sep) == rest[0] + sep + Join(rest[1..], sep);
      assert Join(parts, sep) == parts[0] + t;
      assert t[|t| - |t|..] == t;
      EndsWithPrepend(parts[0], t, t);
    } else {
      JoinSepBeforeLastTwo(rest, sep);
      assert rest[|rest| - 2] == parts[n - 2] && rest[|rest| - 1] == parts[n - 1];
      EndsWithPrepend(parts[0] + sep, Join(rest, sep), t);
    }
  }

  /**
   * `a`, the character `c` and `b` end `s`, and `a` is a whole piece: it starts `s`
   * or follows a `c`.
   */
  predicate EndsWithPieces(s: string, a: string, b: string, c: char) {
    var t := a + [c] + b;
    EndsWith(s, t) && (|s| == |t| || s[|s| - |t| - 1] == c)
  }

  /** The last two pieces of a split end the text as whole pieces. */
  lemma SplitLastTwo(s: string, c: char)
    requires |Split(s, c)| >= 2
    ensures var p := Split(s, c); EndsWithPieces(s, p[|p| - 2], p[|p| - 1], c)
  {
    var p := Split(s, c);
    var t := p[|p| - 2] + [c] + p[|p| - 1];
    JoinSplit(s, c);
    JoinEndsWithLastTwo(p, [c]);
    if |p| == 2 {
      assert Join(p, [c]) == p[0] + [c] + Join(p[1..], [c]);
      assert s == t;
    } else {
      JoinSepBeforeLastTwo(p, [c]);
      var u := [c] + p[|p| - 2] + [c] + p[|p| - 1];
      assert s[|s| - |u|..] == u;
      assert s[|s| - |t| - 1] == u[0];
    }
  }


  /** `sep.join(parts)` ends as its last part does. */
  lemma JoinFinish(parts: seq<string>, sep: string)
    requires parts != [] && parts[|parts| - 1] != []
    ensures var j := Join(parts, sep);
      j != [] && j[|j| - 1] == parts[|parts| - 1][|parts[|parts| - 1]| - 1]
  {
    var n := |parts|;
    JoinPartAt(parts, sep, n - 1);
    JoinLength(parts, sep);
    var j := Join(parts, sep);
    var o := JoinOffset(parts, sep, n - 1);
    assert j[o..o + |parts[n - 1]|] == parts[n - 1];
    assert j[o + |parts[n - 1]| - 1] == parts[n - 1][|parts[n - 1]| - 1];
  }

  /** Where `parts[k]` begins in `Join(parts, sep)`: the earlier parts, each followed by a separator. */
  function JoinOffset(parts: seq<string>, sep: string, k: nat): nat
    requires k <= |parts|
  {
    if k == 0 then 0 else JoinOffset(parts, sep, k - 1) + |parts[k - 1]| + |sep|
  }

  lemma {:induction false} JoinOffsetTail(parts: seq<string>, sep: string, k: nat)
    requires 1 <= k <= |parts|
    ensures JoinOffset(parts, sep, k) == |parts[0]| + |sep| + JoinOffset(parts[1..], sep, k - 1)
  {
    if k > 1 {
      JoinOffsetTail(parts, sep, k - 1);
      assert parts[1..][k - 2] == parts[k - 1];
    }
  }

  /** The length of `sep.join(parts)`: every part, and a separator between each two. */
  lemma {:induction false} JoinLength(parts: seq<string>, sep: string)
    requires parts != []
    ensures |Join(parts, sep)| == JoinOffset(parts, sep, |parts| - 1) + |parts[|parts| - 1]|
    decreases |parts|
  {
    if |parts| > 1 {
      JoinLength(parts[1..], sep);
      JoinOffsetTail(parts, sep, |parts| - 1);
    }
  }

  /** Part `k` of `sep.join(parts)` stands at its offset. */
  lemma {:induction false} JoinPartAt(parts: seq<string>, sep: string, k: nat)
    requires k < |parts|
    ensures OccursAt(Join(parts, sep), parts[k], JoinOffset(parts, sep, k))
    decreases k
  {
    var j := Join(parts, sep);
    if k == 0 {
      if |parts| > 1 {
        assert j[..|parts[0]|] == parts[0];
      }
    } else {
      var tail := parts[1..];
      assert j == parts[0] + sep + Join(tail, sep);
      JoinPartAt(tail, sep, k - 1);
      JoinOffsetTail(parts, sep, k);
      ShiftOccurs(parts[0] + sep, Join(tail, sep), tail[k - 1], JoinOffset(tail, sep, k - 1));
    }
  }

  /** After every part of `sep.join(parts)` but the last comes the separator. */
  lemma {:induction false} JoinSepAt(parts: seq<string>, sep: string, k: nat)
    requires k + 1 < |parts|
    ensures OccursAt(Join(parts, sep), sep, JoinOffset(parts, sep, k) + |parts[k]|)
    decreases k
  {
    var tail := parts[1..];
    if k == 0 {
      SepAfter(parts[0], sep, Join(tail, sep));
    } else {
      JoinSepAt(tail, sep, k - 1);
      JoinOffsetTail(parts, sep, k);
      ShiftOccurs(parts[0] + sep, Join(tail, sep), sep, JoinOffset(tail, sep, k - 1) + |tail[k - 1]|);
    }
  }

  lemma SepAfter(a: string, sep: string, b: string)
    ensures OccursAt(a + sep + b, sep, |a|)
  {
    assert (a + sep + b)[|a|..|a| + |sep|] == sep;
  }

  /**
   * `s` is the parts with `sep` between each two, position by position: each
   * part at its offset, a separator after every part but the last, and nothing
   * after the last part.
   */
  predicate Interleaves(s: string, parts: seq<string>, sep: string)
    requires parts != []
  {
    && |s| == JoinOffset(parts, sep, |parts| - 1) + |parts[|parts| - 1]|
    && (forall k :: 0 <= k < |parts| ==> OccursAt(s, parts[k], JoinOffset(parts, sep, k)))
    && (forall k :: 0 <= k < |parts| - 1 ==> OccursAt(s, sep, JoinOffset(parts, sep, k) + |parts[k]|))
  }

  /** `sep.join(parts)` interleaves the parts with the separator. */
  lemma JoinInterleaves(parts: seq<string>, sep: string)
    requires parts != []
    ensures Interleaves(Join(parts, sep), parts, sep)
  {
    JoinLength(parts, sep);
    forall k | 0 <= k < |parts|
      ensures OccursAt(Join(parts, sep), parts[k], JoinOffset(parts, sep, k))
    {
      JoinPartAt(parts, sep, k);
    }
    forall k | 0 <= k < |parts| - 1
      ensures OccursAt(Join(parts, sep), sep, JoinOffset(parts, sep, k) + |parts[k]|)
    {
      JoinSepAt(parts, sep, k);
    }
  }

  /** An occurrence in `t` is an occurrence in `h + t`, shifted by `|h|`. */
  lemma ShiftOccurs(h: string, t: string, x: string, i: nat)
    requires OccursAt(t, x, i)
    ensures OccursAt(h + t, x, |h| + i)
  {
    assert (h + t)[|h| + i..|h| + i + |x|] == t[i..i + |x|];
  }

  /** `s.split(c)` for a one-character separator: the maximal runs between occurrences of `c`. */
  function Split(s: string, c: char): (parts: seq<string>)
    ensures |parts| >= 1
    ensures forall k :: 0 <= k < |parts| ==> c !in parts[k]
    decreases |s|
  {
    match FindFrom(s, [c], 0)
    case None =>
      assert forall j :: 0 <= j < |s| ==> !OccursAt(s, [c], j) && s[j..j + 1] == [s[j]];
      [s]
    case Some(i) =>
      assert forall j :: 0 <= j < i ==> !OccursAt(s, [c], j) && s[j..j + 1] == [s[j]];
      [s[..i]] + Split(s[i + 1..], c)
  }

  /** A split gives a single piece exactly when the separator does not occur. */
  lemma SplitSingle(s: string, c: char)
    ensures |Split(s, c)| == 1 <==> c !in s
  {
    match FindFrom(s, [c], 0)
    case None =>
      forall j | 0 <= j < |s|
        ensures s[j] != c
      {
        OccursAtChar(s, c, j);
      }
    case Some(i) =>
      OccursAtChar(s, c, i);
  }

  /** Joining the pieces of a split with the separator gives the string back. */
  lemma {:induction false} JoinSplit(s: string, c: char)
    ensures Join(Split(s, c), [c]) == s
    decreases |s|
  {
    match FindFrom(s, [c], 0)
    case None =>
    case Some(i) =>
      var rest := Split(s[i + 1..], c);
      JoinSplit(s[i + 1..], c);
      assert Split(s, c) == [s[..i]] + rest;
      assert ([s[..i]] + rest)[1..] == rest;
      assert s[i..i + 1] == [c];
      assert s == s[..i] + [c] + s[i + 1..];
  }

  /** Splitting a join whose parts do not contain the separator gives the parts back. */
  lemma {:induction false} SplitJoin(parts: seq<string>, c: char)
    requires |parts| >= 1
    requires forall k :: 0 <= k < |parts| ==> c !in parts[k]
    ensures Split(Join(parts, [c]), c) == parts
    decreases |parts|
  {
    if |parts| == 1 {
      SplitNone(parts[0], c);
    } else {
      SplitCons(parts[0], Join(parts[1..], [c]), c);
      SplitJoin(parts[1..], c);
      assert parts == [parts[0]] + parts[1..];
    }
  }

  /** A text without the separator splits into itself. */
  lemma SplitNone(p: string, c: char)
    requires c !in p
    ensures Split(p, c) == [p]
  {
    match FindFrom(p, [c], 0)
    case None =>
    case Some(r) =>
      OccursAtChar(p, c, r);
  }

  /** The first separator cuts off the first piece; the rest splits on its own. */
  lemma SplitCons(p: string, rest: string, c: char)
    requires c !in p
    ensures Split(p + [c] + rest, c) == [p] + Split(rest, c)
  {
    var s := p + [c] + rest;
    assert forall j :: 0 <= j < |p| ==> s[j] == p[j];
    FindCharAt(s, c, |p|);
    assert s[..|p|] == p;
    assert s[|p| + 1..] == rest;
  }

  /** The search for a one-character text stops at the first place that character stands. */
  lemma FindCharAt(s: string, c: char, i: nat)
    requires i < |s| && s[i] == c
    requires forall j :: 0 <= j < i ==> s[j] != c
    ensures FindFrom(s, [c], 0) == Some(i)
  {
    OccursAtChar(s, c, i);
    match FindFrom(s, [c], 0)
    case None =>
    case Some(r) =>
      OccursAtChar(s, c, r);
  }

  // ---------------------------------------------------------------------------
  // splitlines()
  // ---------------------------------------------------------------------------

  /** The line boundaries of `str.splitlines()`; `\r\n` counts as one. */
  predicate IsLineBreak(c: char) {
    ('\n' <= c <= '\r') || ('\U{1C}' <= c <= '\U{1E}') || c == '\U{85}'
    || c == '\U{2028}' || c == '\U{2029}'
  }

  /** Index of the first line break at or after `i`, or `|s|`. */
  function LineEnd(s: string, i: nat): (e: nat)
    requires i <= |s|
    ensures i <= e <= |s|
    ensures e < |s| ==> IsLineBreak(s[e])
    ensures forall j :: i <= j < e ==> !IsLineBreak(s[j])
    decreases |s| - i
  {
    if i == |s| || IsLineBreak(s[i]) then i else LineEnd(s, i + 1)
  }

  /** `s.splitlines()`: lines without their terminators, no trailing empty line. */
  function SplitLines(s: string): (lines: seq<string>)
    ensures forall k, j :: 0 <= k < |lines| && 0 <= j < |lines[k]| ==> !IsLineBreak(lines[k][j])
    ensures s == [] <==> lines == []
    decreases |s|
  {
    if s == [] then []
    else
      var e := LineEnd(s, 0);
      if e == |s| then [s]
      else
        var next := if s[e] == '\r' && e + 1 < |s| && s[e + 1] == '\n' then e + 2 else e + 1;
        [s[..e]] + SplitLines(s[next..])
  }
}
