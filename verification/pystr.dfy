/**
 * The few Python `str` operations the poll command relies on, written out
 * character by character: `isspace`, `splitlines`, `split(maxsplit=1)`,
 * `split(sep)`, `sep.join(...)` and `str(int)`.
 */
module PyStr {
  import opened Wrappers

  lemma ConcatAssoc<T>(a: seq<T>, b: seq<T>, c: seq<T>)
    ensures (a + b) + c == a + (b + c)
  {
  }

  // ---------------------------------------------------------------------------
  // Character classes
  // ---------------------------------------------------------------------------

  /** The characters for which Python's `str.isspace()` holds:
      CPython's `Py_UNICODE_ISSPACE` set, which `split()` without a separator
      also uses (it adds U+001C to U+001F to Unicode's White_Space). */
  const Spaces: set<char> := {
    ' ', '\t', '\n', '\r', '\U{B}', '\U{C}',
    '\U{1C}', '\U{1D}', '\U{1E}', '\U{1F}', '\U{85}', '\U{A0}', '\U{1680}',
    '\U{2000}', '\U{2001}', '\U{2002}', '\U{2003}', '\U{2004}', '\U{2005}',
    '\U{2006}', '\U{2007}', '\U{2008}', '\U{2009}', '\U{200A}',
    '\U{2028}', '\U{2029}', '\U{202F}', '\U{205F}', '\U{3000}'
  }

  /** The line boundaries recognised by Python's `str.splitlines()`. */
  const LineBreaks: set<char> := {
    '\n', '\r', '\U{B}', '\U{C}', '\U{1C}', '\U{1D}', '\U{1E}',
    '\U{85}', '\U{2028}', '\U{2029}'
  }

  predicate IsSpace(c: char) {
    c in Spaces
  }

  predicate IsLineBreak(c: char) {
    c in LineBreaks
  }

  predicate AllSpace(s: string) {
    forall i :: 0 <= i < |s| ==> IsSpace(s[i])
  }

  predicate NoSpace(s: string) {
    forall i :: 0 <= i < |s| ==> !IsSpace(s[i])
  }

  predicate NoLineBreak(s: string) {
    forall i :: 0 <= i < |s| ==> !IsLineBreak(s[i])
  }

  predicate Excludes(s: string, c: char) {
    forall i :: 0 <= i < |s| ==> s[i] != c
  }

  /** Printable ASCII, the alphabet of the fixed texts the poll sends. */
  predicate Printable(s: string) {
    forall i :: 0 <= i < |s| ==> ' ' <= s[i] <= '~'
  }

  lemma PrintableNoLineBreak(s: string)
    requires Printable(s)
    ensures NoLineBreak(s)
  {
  }

  // ---------------------------------------------------------------------------
  // str.splitlines()
  // ---------------------------------------------------------------------------

  /** Index of the first line boundary in `s`, or `|s|` when there is none. */
  function BreakIndex(s: string): (k: nat)
    ensures k <= |s|
    ensures forall i :: 0 <= i < k ==> !IsLineBreak(s[i])
    ensures k < |s| ==> IsLineBreak(s[k])
  {
    if s == [] || IsLineBreak(s[0]) then 0 else 1 + BreakIndex(s[1..])
  }

  /** Length of the line terminator at `s[k]`: `\r\n` is one terminator. */
  function BreakWidth(s: string, k: nat): nat
    requires k < |s|
  {
    if s[k] == '\r' && k + 1 < |s| && s[k + 1] == '\n' then 2 else 1
  }

  /** Python's `s.splitlines()`: the terminators are dropped, a final
      terminator does not start an extra empty line, and a blank line in the
      middle of the text yields an empty string. */
  function SplitLines(s: string): (lines: seq<string>)
    ensures forall i :: 0 <= i < |lines| ==> NoLineBreak(lines[i])
    ensures |lines| == 0 <==> |s| == 0
    decreases |s|
  {
    if s == [] then []
    else
      var k := BreakIndex(s);
      if k == |s| then [s]
      else
        var rest := SplitLines(s[k + BreakWidth(s, k)..]);
        var lines := [s[..k]] + rest;
        assert NoLineBreak(s[..k]);
        assert forall i :: 0 < i < |lines| ==> lines[i] == rest[i - 1];
        lines
  }

  /** A line terminator as `splitlines()` recognises it: `\r\n`, or one
      boundary character on its own. */
  predicate IsTerminator(t: string) {
    t == "\r\n" || (|t| == 1 && IsLineBreak(t[0]))
  }

  /** Each line followed by its terminator, all concatenated. */
  function Rejoin(lines: seq<string>, ends: seq<string>): string
    requires |lines| == |ends|
    decreases |lines|
  {
    if lines == [] then [] else lines[0] + ends[0] + Rejoin(lines[1..], ends[1..])
  }

  /** How the lines of a text end: every line but the last in a terminator,
      the last one in a terminator or at the end of the text (and then it
      is not empty, so a final terminator opens no extra line), and a lone
      `\r` only where the text after it does not open with `\n` (that pair
      would be one `\r\n` terminator). */
  predicate Terminated(lines: seq<string>, ends: seq<string>)
    requires |lines| == |ends|
  {
    && (forall i :: 0 <= i < |ends| - 1 ==> IsTerminator(ends[i]))
    && (|ends| > 0 ==> IsTerminator(ends[|ends| - 1]) || ends[|ends| - 1] == [])
    && (|ends| > 0 && ends[|ends| - 1] == [] ==> lines[|lines| - 1] != [])
    && (forall i :: 0 <= i < |ends| && ends[i] == "\r" ==>
          AfterLoneReturn(Rejoin(lines[i + 1..], ends[i + 1..])))
  }

  /** The lines of `splitlines()` are exactly the segments of the text
      between its terminators: putting each line back in front of its
      terminator gives the text again, and the terminators are the ones
      `Terminated` describes, so the segmentation is the only one. */
  lemma {:induction false} SplitLinesShape(s: string) returns (ends: seq<string>)
    ensures |ends| == |SplitLines(s)|
    ensures Terminated(SplitLines(s), ends)
    ensures Rejoin(SplitLines(s), ends) == s
    decreases |s|
  {
    if s == [] {
      ends := [];
    } else {
      var k := BreakIndex(s);
      if k == |s| {
        ends := [[]];
        assert s + [] + Rejoin([], []) == s;
      } else {
        var w := BreakWidth(s, k);
        var restEnds := SplitLinesShape(s[k + w..]);
        ends := [s[k..k + w]] + restEnds;
        SplitLinesBreak(s, k);
        TerminatorAt(s, k);
        RejoinCons(s[..k], s[k..k + w], SplitLines(s[k + w..]), restEnds);
        Cut3(s, k, k + w);
        ShapeShift(SplitLines(s), ends);
      }
    }
  }

  /** The converse of `SplitLinesShape`: any cutting of a text into
      boundary-free lines, each followed by a terminator as `Terminated`
      describes, is the one `splitlines()` makes. */
  lemma {:induction false} SplitLinesUnique(s: string, lines: seq<string>, ends: seq<string>)
    requires |lines| == |ends|
    requires forall i :: 0 <= i < |lines| ==> NoLineBreak(lines[i])
    requires Terminated(lines, ends)
    requires Rejoin(lines, ends) == s
    ensures SplitLines(s) == lines
    decreases |lines|
  {
    if lines != [] {
      var rest := Rejoin(lines[1..], ends[1..]);
      assert s == lines[0] + ends[0] + rest;
      if ends[0] == [] {
        assert |lines| == 1 && lines[0] != [];
        assert s == lines[0] by { assert rest == []; }
        SplitLinesSingle(lines[0]);
      } else {
        assert IsTerminator(ends[0]);
        TerminatedTail(lines, ends);
        SplitLinesUnique(rest, lines[1..], ends[1..]);
        SplitLinesTerm(lines[0], ends[0], rest);
        assert lines == [lines[0]] + lines[1..];
      }
    }
  }

  /** `Terminated` carries over to the tail of the lines. */
  lemma TerminatedTail(lines: seq<string>, ends: seq<string>)
    requires |lines| == |ends| > 0
    requires Terminated(lines, ends)
    ensures Terminated(lines[1..], ends[1..])
  {
    var tl, te := lines[1..], ends[1..];
    forall i | 0 <= i < |te| && te[i] == "\r"
      ensures AfterLoneReturn(Rejoin(tl[i + 1..], te[i + 1..]))
    {
      assert ends[i + 1] == te[i];
      assert tl[i + 1..] == lines[i + 2..];
      assert te[i + 1..] == ends[i + 2..];
    }
  }

  /** A line followed by any terminator is split off, and the rest is split
      on its own; after a lone `\r` the rest must not open with `\n`. */
  lemma {:induction false} SplitLinesTerm(l: string, t: string, rest: string)
    requires NoLineBreak(l) && IsTerminator(t)
    requires t == "\r" ==> AfterLoneReturn(rest)
    ensures SplitLines(l + t + rest) == [l] + SplitLines(rest)
  {
    var s := l + (t + rest);
    ConcatAssoc(l, t, rest);
    BreakIndexAfter(l, t + rest);
    TakeConcat(l, t + rest);
    assert BreakWidth(s, |l|) == |t| by {
      assert s[|l|] == t[0];
      if |t| == 2 {
        assert s[|l| + 1] == t[1];
      } else if t[0] == '\r' && |l| + 1 < |s| {
        assert s[|l| + 1] == rest[0];
      }
    }
    assert s[|l| + |t|..] == rest by {
      SliceConcat(l, t + rest, |t|);
      DropConcat(t, rest);
    }
  }

  /** `splitlines()` at the first boundary of a text. */
  lemma SplitLinesBreak(s: string, k: nat)
    requires k == BreakIndex(s) < |s|
    ensures SplitLines(s) == [s[..k]] + SplitLines(s[k + BreakWidth(s, k)..])
  {
  }

  /** What `splitlines()` drops at a boundary is a terminator, and a lone
      `\r` is dropped only when no `\n` follows it. */
  lemma TerminatorAt(s: string, k: nat)
    requires k == BreakIndex(s) < |s|
    ensures var w := BreakWidth(s, k);
      && IsTerminator(s[k..k + w])
      && (s[k..k + w] == "\r" ==> AfterLoneReturn(s[k + w..]))
  {
    var w := BreakWidth(s, k);
    if w == 2 {
      assert s[k..k + w] == [s[k], s[k + 1]];
    } else {
      assert s[k..k + w] == [s[k]];
      if s[k] == '\r' && k + 1 < |s| {
        assert s[k + 1..][0] == s[k + 1];
      }
    }
  }

  lemma RejoinCons(l: string, t: string, ls: seq<string>, ts: seq<string>)
    requires |ls| == |ts|
    ensures ([l] + ls)[1..] == ls && ([t] + ts)[1..] == ts
    ensures Rejoin([l] + ls, [t] + ts) == l + t + Rejoin(ls, ts)
  {
    assert ([l] + ls)[1..] == ls && ([t] + ts)[1..] == ts;
  }

  lemma Cut3<T>(s: seq<T>, i: nat, j: nat)
    requires i <= j <= |s|
    ensures s[..i] + s[i..j] + s[j..] == s
  {
    assert s[..i] + s[i..j] == s[..j];
  }

  /** Text that may follow a lone `\r` terminator: it does not open with `\n`. */
  predicate AfterLoneReturn(rest: string) {
    rest == [] || rest[0] != '\n'
  }

  /** `Terminated` for a text carries over from its tail. */
  lemma ShapeShift(lines: seq<string>, ends: seq<string>)
    requires |lines| == |ends| > 0
    requires IsTerminator(ends[0])
    requires ends[0] == "\r" ==> AfterLoneReturn(Rejoin(lines[1..], ends[1..]))
    requires Terminated(lines[1..], ends[1..])
    ensures Terminated(lines, ends)
  {
    var tl, te := lines[1..], ends[1..];
    if |ends| > 1 {
      assert ends[|ends| - 1] == te[|te| - 1] && lines[|lines| - 1] == tl[|tl| - 1];
    }
    forall i | 0 < i < |ends| - 1
      ensures IsTerminator(ends[i])
    {
      assert ends[i] == te[i - 1];
    }
    forall i | 0 < i < |ends| && ends[i] == "\r"
      ensures AfterLoneReturn(Rejoin(lines[i + 1..], ends[i + 1..]))
    {
      assert te[i - 1] == ends[i];
      assert tl[i..] == lines[i + 1..];
      assert te[i..] == ends[i + 1..];
    }
  }

  /** The first boundary of `l + t` is the one that starts `t`. */
  lemma {:induction false} BreakIndexAfter(l: string, t: string)
    requires NoLineBreak(l)
    requires t == [] || IsLineBreak(t[0])
    ensures BreakIndex(l + t) == |l|
  {
    assert forall i :: 0 <= i < |l| ==> (l + t)[i] == l[i];
    assert |t| > 0 ==> (l + t)[|l|] == t[0];
  }

  /** A text without line boundaries is one line. */
  lemma {:induction false} SplitLinesSingle(l: string)
    requires l != [] && NoLineBreak(l)
    ensures SplitLines(l) == [l]
  {
    BreakIndexAfter(l, []);
    assert l + [] == l;
  }

  /** A line terminated by `\n` is split off, and the rest is split on its own. */
  lemma {:induction false} SplitLinesCons(l: string, rest: string)
    requires NoLineBreak(l)
    ensures SplitLines(l + "\n" + rest) == [l] + SplitLines(rest)
  {
    var t := "\n" + rest;
    ConcatAssoc(l, "\n", rest);
    BreakIndexAfter(l, t);
    TakeConcat(l, t);
    assert (l + t)[|l| + 1..] == rest by {
      SliceConcat(l, t, 1);
      DropConcat("\n", rest);
    }
  }

  // ---------------------------------------------------------------------------
  // sep.join(parts) and s.split(c)
  // ---------------------------------------------------------------------------

  /** The total length of some strings. */
  function SumLengths(parts: seq<string>): nat
  {
    if parts == [] then 0 else |parts[0]| + SumLengths(parts[1..])
  }

  /** Python's `sep.join(parts)`. */
  function Join(sep: string, parts: seq<string>): string
  {
    if |parts| == 0 then ""
    else if |parts| == 1 then parts[0]
    else parts[0] + sep + Join(sep, parts[1..])
  }

  /** A join holds every part and one separator between each pair, and it
      opens with the first part. */
  lemma {:induction false} JoinShape(sep: string, parts: seq<string>)
    ensures parts == [] ==> Join(sep, parts) == []
    ensures parts != [] ==> |Join(sep, parts)| == SumLengths(parts) + |sep| * (|parts| - 1)
    ensures parts != [] ==> Join(sep, parts)[..|parts[0]|] == parts[0]
    decreases |parts|
  {
    if |parts| > 1 {
      JoinShape(sep, parts[1..]);
      assert |sep| * (|parts| - 1) == |sep| + |sep| * (|parts| - 2);
    }
  }

  /** Joining lines with `\n` and splitting the text again gives the lines
      back, as long as no line holds a boundary and the last one is not empty
      (an empty last line would be swallowed as a trailing terminator). */
  lemma {:induction false} SplitLinesJoin(lines: seq<string>)
    requires |lines| > 0 && lines[|lines| - 1] != []
    requires forall i :: 0 <= i < |lines| ==> NoLineBreak(lines[i])
    ensures SplitLines(Join("\n", lines)) == lines
    decreases |lines|
  {
    if |lines| == 1 {
      SplitLinesSingle(lines[0]);
    } else {
      var tail := lines[1..];
      assert forall i :: 0 <= i < |tail| ==> tail[i] == lines[i + 1];
      SplitLinesJoin(tail);
      SplitLinesCons(lines[0], Join("\n", tail));
      assert lines == [lines[0]] + tail;
    }
  }

  /** Appending one more part to a non-empty join adds a separator and the
      part at the end. */
  lemma {:induction false} JoinAppend(sep: string, parts: seq<string>, p: string)
    requires |parts| > 0
    ensures Join(sep, parts + [p]) == Join(sep, parts) + sep + p
    decreases |parts|
  {
    var ps := parts + [p];
    assert ps[1..] == parts[1..] + [p];
    if |parts| > 1 {
      JoinAppend(sep, parts[1..], p);
    }
  }

  /** The rendering idiom `text += "\n" + line` applied to each line in turn. */
  function AppendLines(head: string, lines: seq<string>): (text: string)
    ensures text == Join("\n", [head] + lines)
    decreases |lines|
  {
    if lines == [] then
      assert [head] + lines == [head];
      head
    else
      var init := lines[..|lines| - 1];
      var text := AppendLines(head, init) + "\n" + lines[|lines| - 1];
      JoinAppend("\n", [head] + init, lines[|lines| - 1]);
      assert [head] + init + [lines[|lines| - 1]] == [head] + lines;
      text
  }

  /** One more line appends a line break and the line. */
  lemma AppendLinesStep(head: string, lines: seq<string>, line: string)
    ensures AppendLines(head, lines + [line]) == AppendLines(head, lines) + "\n" + line
  {
    assert (lines + [line])[..|lines|] == lines;
  }

  /** Text built by `AppendLines` reads back, line by line, as the lines it
      was built from. */
  lemma AppendLinesSplit(head: string, lines: seq<string>)
    requires head != [] && NoLineBreak(head)
    requires forall i :: 0 <= i < |lines| ==> lines[i] != [] && NoLineBreak(lines[i])
    ensures SplitLines(AppendLines(head, lines)) == [head] + lines
  {
    var all := [head] + lines;
    forall i | 0 <= i < |all|
      ensures NoLineBreak(all[i])
    {
      if i > 0 {
        assert all[i] == lines[i - 1];
      }
    }
    assert all[|all| - 1] != [];
    SplitLinesJoin(all);
  }

  /** The same for a text with two header lines. */
  lemma AppendLinesSplit2(head: string, second: string, lines: seq<string>)
    requires head != [] && NoLineBreak(head)
    requires second != [] && NoLineBreak(second)
    requires forall i :: 0 <= i < |lines| ==> lines[i] != [] && NoLineBreak(lines[i])
    ensures SplitLines(AppendLines(head, [second] + lines)) == [head, second] + lines
  {
    var tail := [second] + lines;
    forall i | 0 <= i < |tail|
      ensures tail[i] != [] && NoLineBreak(tail[i])
    {
      if i > 0 {
        assert tail[i] == lines[i - 1];
      }
    }
    AppendLinesSplit(head, tail);
    ConcatAssoc([head], [second], lines);
  }

  /** Index of the first `c` in `s`, or `|s|` when there is none. */
  function IndexOf(s: string, c: char): (k: nat)
    ensures k <= |s|
    ensures forall i :: 0 <= i < k ==> s[i] != c
    ensures k < |s| ==> s[k] == c
  {
    if s == [] || s[0] == c then 0 else 1 + IndexOf(s[1..], c)
  }

  /** Python's `s.split(c)` for a one-character separator. */
  function SplitOn(s: string, c: char): (parts: seq<string>)
    ensures |parts| >= 1
    ensures forall i :: 0 <= i < |parts| ==> Excludes(parts[i], c)
    ensures Join([c], parts) == s
    decreases |s|
  {
    var k := IndexOf(s, c);
    if k == |s| then
      [s]
    else
      var rest := SplitOn(s[k + 1..], c);
      var parts := [s[..k]] + rest;
      assert parts[1..] == rest;
      assert forall i :: 0 < i < |parts| ==> parts[i] == rest[i - 1];
      assert s == s[..k] + [c] + s[k + 1..];
      parts
  }

  lemma {:induction false} IndexOfAfter(a: string, t: string, c: char)
    requires Excludes(a, c)
    requires t == [] || t[0] == c
    ensures IndexOf(a + t, c) == |a|
  {
    assert forall i :: 0 <= i < |a| ==> (a + t)[i] == a[i];
    assert |t| > 0 ==> (a + t)[|a|] == t[0];
  }

  /** Splitting a join recovers the parts when none of them holds the separator. */
  lemma {:induction false} SplitOnJoin(parts: seq<string>, c: char)
    requires |parts| >= 1
    requires forall i :: 0 <= i < |parts| ==> Excludes(parts[i], c)
    ensures SplitOn(Join([c], parts), c) == parts
    decreases |parts|
  {
    if |parts| == 1 {
      IndexOfAfter(parts[0], [], c);
      assert parts[0] + [] == parts[0];
    } else {
      var p, rest := parts[0], Join([c], parts[1..]);
      var s := Join([c], parts);
      assert s == p + ([c] + rest) by {
        ConcatAssoc(p, [c], rest);
      }
      IndexOfAfter(p, [c] + rest, c);
      TakeConcat(p, [c] + rest);
      assert s[|p| + 1..] == rest by {
        SliceConcat(p, [c] + rest, 1);
        DropConcat([c], rest);
      }
      SplitOnJoin(parts[1..], c);
      assert parts == [p] + parts[1..];
    }
  }

  // ---------------------------------------------------------------------------
  // line.split(maxsplit=1)
  // ---------------------------------------------------------------------------

  /** Length of the run of white space that starts `s`. */
  function SpaceRun(s: string): (n: nat)
    ensures n <= |s|
    ensures forall i :: 0 <= i < n ==> IsSpace(s[i])
    ensures n < |s| ==> !IsSpace(s[n])
  {
    if s == [] || !IsSpace(s[0]) then 0 else 1 + SpaceRun(s[1..])
  }

  /** Length of the run of non-white-space that starts `s`. */
  function WordRun(s: string): (n: nat)
    ensures n <= |s|
    ensures forall i :: 0 <= i < n ==> !IsSpace(s[i])
    ensures n < |s| ==> IsSpace(s[n])
  {
    if s == [] || IsSpace(s[0]) then 0 else 1 + WordRun(s[1..])
  }

  /** Python's `line.split(maxsplit=1)`: leading white space is skipped, the
      first word is cut at the next white space, the white space after it is
      skipped, and whatever is left (trailing white space included) is the
      second part; an empty or all-white line gives no parts at all. */
  function SplitOnce(line: string): (parts: seq<string>)
    ensures |parts| <= 2
    ensures |parts| == 0 <==> AllSpace(line)
    ensures forall i :: 0 <= i < |parts| ==> parts[i] != [] && !IsSpace(parts[i][0])
    ensures |parts| >= 1 ==> NoSpace(parts[0])
  {
    var a := SpaceRun(line);
    if a == |line| then
      []
    else
      var t := a + WordRun(line[a..]);
      var b := t + SpaceRun(line[t..]);
      CutPoints(line, a, t, b);
      Pieces(line, a, t, b)
  }

  /** The first word and, when anything follows the gap after it, the rest. */
  function Pieces(line: string, a: nat, t: nat, b: nat): seq<string>
    requires a <= t <= b <= |line|
  {
    if b == |line| then [line[a..t]] else [line[a..t], line[b..]]
  }

  /** Cutting a sequence at three points and gluing the pieces gives it back. */
  lemma {:induction false} Glue(line: string, a: nat, t: nat, b: nat)
    requires a <= t <= b <= |line|
    ensures line == line[..a] + line[a..t] + line[t..b] + line[b..]
  {
    assert line[..a] + line[a..t] == line[..t];
    assert line[..t] + line[t..b] == line[..b];
    assert line[..b] + line[b..] == line;
  }

  /** The facts `SplitOnce` needs about its three cut points. */
  lemma {:induction false} CutPoints(line: string, a: nat, t: nat, b: nat)
    requires a < |line| && a == SpaceRun(line)
    requires t == a + WordRun(line[a..])
    requires b == t + SpaceRun(line[t..])
    ensures a < t <= b <= |line|
    ensures AllSpace(line[..a]) && !AllSpace(line)
    ensures NoSpace(line[a..t]) && !IsSpace(line[a..t][0])
    ensures AllSpace(line[t..b])
    ensures b < |line| ==> t < b && !IsSpace(line[b..][0])
  {
    WordCut(line, a, t);
    GapCut(line, t, b);
  }

  lemma {:induction false} WordCut(line: string, a: nat, t: nat)
    requires a < |line| && a == SpaceRun(line)
    requires t == a + WordRun(line[a..])
    ensures a < t <= |line|
    ensures AllSpace(line[..a]) && !AllSpace(line)
    ensures NoSpace(line[a..t]) && !IsSpace(line[a..t][0])
    ensures t < |line| ==> IsSpace(line[t])
  {
    assert !IsSpace(line[a]);
    var w := line[a..];
    assert w[0] == line[a];
    assert forall i :: 0 <= i < t - a ==> line[a..t][i] == w[i];
    assert t < |line| ==> line[t] == w[t - a];
  }

  lemma {:induction false} GapCut(line: string, t: nat, b: nat)
    requires t <= |line|
    requires t < |line| ==> IsSpace(line[t])
    requires b == t + SpaceRun(line[t..])
    ensures t <= b <= |line|
    ensures AllSpace(line[t..b])
    ensures b < |line| ==> t < b && !IsSpace(line[b..][0])
  {
    var g := line[t..];
    assert forall i :: 0 <= i < b - t ==> line[t..b][i] == g[i];
    if b < |line| {
      assert line[b..][0] == g[b - t];
      assert g[0] == line[t];
    }
  }

  lemma {:induction false} SpaceRunOf(x: string, y: string)
    requires AllSpace(x)
    requires y == [] || !IsSpace(y[0])
    ensures SpaceRun(x + y) == |x|
  {
    assert forall i :: 0 <= i < |x| ==> (x + y)[i] == x[i];
    assert |y| > 0 ==> (x + y)[|x|] == y[0];
  }

  lemma {:induction false} WordRunOf(x: string, y: string)
    requires NoSpace(x)
    requires y == [] || IsSpace(y[0])
    ensures WordRun(x + y) == |x|
  {
    assert forall i :: 0 <= i < |x| ==> (x + y)[i] == x[i];
    assert |y| > 0 ==> (x + y)[|x|] == y[0];
  }

  lemma TakeConcat<T>(x: seq<T>, y: seq<T>)
    ensures (x + y)[..|x|] == x
  {
  }

  lemma DropConcat<T>(x: seq<T>, y: seq<T>)
    ensures (x + y)[|x|..] == y
  {
  }

  /** The parts put back together with the white space `split` dropped give
      the line again: white space in front, the first word, and either
      trailing white space or a non-empty gap and the rest. */
  lemma {:induction false} SplitOnceShape(line: string)
    ensures var parts := SplitOnce(line);
      && (|parts| == 1 ==>
        exists lead, trail :: AllSpace(lead) && AllSpace(trail) && line == lead + parts[0] + trail)
      && (|parts| == 2 ==>
        exists lead, gap :: AllSpace(lead) && AllSpace(gap) && gap != [] && line == lead + parts[0] + gap + parts[1])
  {
    var a := SpaceRun(line);
    if a < |line| {
      var t := a + WordRun(line[a..]);
      var b := t + SpaceRun(line[t..]);
      CutPoints(line, a, t, b);
      Glue(line, a, t, b);
      SplitOnceAt(line, a, t, b);
      if b == |line| {
        assert line[b..] == [];
        assert line == line[..a] + line[a..t] + line[t..b];
      }
    }
  }

  /** Where `split` cuts a line of the shape `lead word gap rest`. */
  lemma {:induction false} TwoCuts(lead: string, word: string, gap: string, rest: string)
    requires AllSpace(lead) && AllSpace(gap) && gap != []
    requires word != [] && NoSpace(word)
    requires rest != [] && !IsSpace(rest[0])
    ensures var line := lead + (word + (gap + rest));
      var a, t := |lead|, |lead| + |word|;
      && SpaceRun(line) == a && WordRun(line[a..]) == |word|
      && SpaceRun(line[t..]) == |gap|
      && line[a..t] == word && line[t + |gap|..] == rest
  {
    WordCutOf(lead, word, gap + rest);
    GapCutOf(lead, word, gap, rest);
  }

  /** The white space in front and the first word of `lead word tail`. */
  lemma {:induction false} WordCutOf(lead: string, word: string, tail: string)
    requires AllSpace(lead) && word != [] && NoSpace(word)
    requires tail == [] || IsSpace(tail[0])
    ensures var line := lead + (word + tail);
      && SpaceRun(line) == |lead| && WordRun(line[|lead|..]) == |word|
      && line[|lead|..|lead| + |word|] == word
  {
    var body := word + tail;
    var line := lead + body;
    assert body[0] == word[0];
    SpaceRunOf(lead, body);
    assert WordRun(line[|lead|..]) == |word| by {
      DropConcat(lead, body);
      WordRunOf(word, tail);
    }
    assert line[|lead|..|lead| + |word|] == word by {
      SliceConcat(lead, body, |word|);
      TakeConcat(word, tail);
    }
  }

  /** The gap after the first word of `lead word gap rest`, and the rest. */
  lemma {:induction false} GapCutOf(lead: string, word: string, gap: string, rest: string)
    requires AllSpace(gap)
    requires rest == [] || !IsSpace(rest[0])
    ensures var line := lead + (word + (gap + rest));
      var t := |lead| + |word|;
      && SpaceRun(line[t..]) == |gap| && line[t + |gap|..] == rest
  {
    SuffixAt(lead, word, gap + rest);
    SpaceRunOf(gap, rest);
    DropConcat(gap, rest);
  }

  /** What follows `a` and `b` in `a + b + c`. */
  lemma TailAfter(a: string, b: string, c: string)
    ensures (a + b + c)[|a| + |b|..] == c
  {
  }

  /** What follows `lead word` in `lead word tail`. */
  lemma SuffixAt(lead: string, word: string, tail: string)
    ensures (lead + (word + tail))[|lead| + |word|..] == tail
  {
    SliceConcat(lead, word + tail, |word|);
    DropConcat(word, tail);
  }

  lemma SliceConcat<T>(x: seq<T>, y: seq<T>, k: nat)
    requires k <= |y|
    ensures (x + y)[|x| + k..] == y[k..] && (x + y)[|x|..|x| + k] == y[..k]
  {
  }

  /** Every line of the shape `lead word gap rest` splits into `[word, rest]`. */
  lemma {:induction false} SplitOnceTwo(lead: string, word: string, gap: string, rest: string)
    requires AllSpace(lead) && AllSpace(gap) && gap != []
    requires word != [] && NoSpace(word)
    requires rest != [] && !IsSpace(rest[0])
    ensures SplitOnce(lead + word + gap + rest) == [word, rest]
  {
    var line := lead + (word + (gap + rest));
    assert lead + word + gap + rest == line by {
      ConcatAssoc(lead, word, gap);
      ConcatAssoc(lead, word + gap, rest);
      ConcatAssoc(word, gap, rest);
    }
    TwoCuts(lead, word, gap, rest);
    SplitOnceAt(line, |lead|, |lead| + |word|, |lead| + |word| + |gap|);
  }

  lemma {:induction false} SplitOnceAt(line: string, a: nat, t: nat, b: nat)
    requires a < |line| && a == SpaceRun(line)
    requires t == a + WordRun(line[a..])
    requires b == t + SpaceRun(line[t..])
    requires t <= b <= |line|
    ensures SplitOnce(line) == Pieces(line, a, t, b)
  {
    var parts := SplitOnce(line);
    var a', t' := SpaceRun(line), SpaceRun(line) + WordRun(line[SpaceRun(line)..]);
    assert a' == a && t' == t;
    assert parts == Pieces(line, a', t', b);
  }

  lemma SliceNoLineBreak(s: string, i: nat, j: nat)
    requires NoLineBreak(s) && i <= j <= |s|
    ensures NoLineBreak(s[i..j]) && NoLineBreak(s[i..])
  {
    assert forall k :: 0 <= k < j - i ==> s[i..j][k] == s[i + k];
    assert forall k :: 0 <= k < |s| - i ==> s[i..][k] == s[i + k];
  }

  /** The parts of a line are pieces of it, so a line without a boundary
      splits into parts without one. */
  lemma SplitOnceNoLineBreak(line: string)
    requires NoLineBreak(line)
    ensures forall i :: 0 <= i < |SplitOnce(line)| ==> NoLineBreak(SplitOnce(line)[i])
  {
    var a := SpaceRun(line);
    if a < |line| {
      var t := a + WordRun(line[a..]);
      var b := t + SpaceRun(line[t..]);
      CutPoints(line, a, t, b);
      SplitOnceAt(line, a, t, b);
      SliceNoLineBreak(line, a, t);
      SliceNoLineBreak(line, b, |line|);
    }
  }

  /** A line holding a single word (white space around it allowed) splits into `[word]`. */
  lemma {:induction false} SplitOnceOne(lead: string, word: string, trail: string)
    requires AllSpace(lead) && AllSpace(trail)
    requires word != [] && NoSpace(word)
    ensures SplitOnce(lead + word + trail) == [word]
  {
    var body := word + trail;
    var line := lead + body;
    assert lead + word + trail == line by {
      ConcatAssoc(lead, word, trail);
    }
    var a, t := |lead|, |lead| + |word|;
    SpaceRunOf(lead, body);
    DropConcat(lead, body);
    WordRunOf(word, trail);
    DropConcat(word, trail);
    assert line[t..] == trail by {
      assert line[t..] == line[a..][|word|..];
    }
    assert SpaceRun(trail) == |trail| by {
      assert trail + [] == trail;
      SpaceRunOf(trail, []);
    }
    assert line[a..t] == word by {
      assert line[a..t] == line[a..][..|word|];
      TakeConcat(word, trail);
    }
    SplitOnceAt(line, a, t, |line|);
  }

  // ---------------------------------------------------------------------------
  // str(int)
  // ---------------------------------------------------------------------------

  predicate IsDigit(c: char) {
    '0' <= c <= '9'
  }

  predicate AllDigits(s: string) {
    forall i :: 0 <= i < |s| ==> IsDigit(s[i])
  }

  function DigitChar(d: nat): (c: char)
    requires d < 10
    ensures IsDigit(c)
  {
    (('0' as int) + d) as char
  }

  function DigitValue(c: char): nat
    requires IsDigit(c)
  {
    (c as int) - ('0' as int)
  }

  /** Value of a decimal digit string, most significant digit first. */
  function DecimalValue(s: string): nat
    requires AllDigits(s)
    decreases |s|
  {
    if s == [] then 0 else 10 * DecimalValue(s[..|s| - 1]) + DigitValue(s[|s| - 1])
  }

  /** Python's `str(n)` for a non-negative integer: decimal digits without
      leading zeros. */
  function NatToString(n: nat): (s: string)
    ensures s != [] && AllDigits(s)
    ensures DecimalValue(s) == n
    ensures s[0] == '0' ==> s == "0"
    decreases n
  {
    if n < 10 then
      [DigitChar(n)]
    else
      var hi := NatToString(n / 10);
      var s := hi + [DigitChar(n % 10)];
      assert s[..|s| - 1] == hi;
      s
  }

  /** Python's `str(i)`: a minus sign, when negative, before the magnitude. */
  function IntToString(i: int): (s: string)
    ensures s != []
    ensures s[0] == '-' <==> i < 0
    ensures i >= 0 ==> IsDigit(s[0])
    ensures forall k :: 0 < k < |s| ==> IsDigit(s[k])
    ensures var digits := if i < 0 then s[1..] else s;
      digits != [] && (digits[0] == '0' ==> digits == "0")
  {
    if i < 0 then
      var s := "-" + NatToString(-i);
      assert s[1..] == NatToString(-i);
      s
    else
      NatToString(i)
  }

  /** Reads back what `IntToString` writes (Python's `int(s)` on that form). */
  function ParseInt(s: string): Option<int>
  {
    if |s| > 1 && s[0] == '-' && AllDigits(s[1..]) then
      var magnitude: int := DecimalValue(s[1..]);
      Some(-magnitude)
    else if s != [] && AllDigits(s) then Some(DecimalValue(s))
    else None
  }

  /** Decimal rendering of an integer loses nothing. */
  lemma {:induction false} IntToStringRoundTrip(i: int)
    ensures ParseInt(IntToString(i)) == Some(i)
  {
    var s := IntToString(i);
    if i < 0 {
      assert s[1..] == NatToString(-i);
    }
  }
}
