/** The few Python string operations the text cores rely on, with the laws that
    connect them: predicates on characters, `strip`, `split`, `join` and `splitlines`. */
module PyText {

  datatype Option<+T> = None | Some(value: T)

  /** Characters for which `str.isspace` holds; the same set that `\s` matches. */
  predicate IsSpace(c: char) {
    || '\t' <= c <= '\r'
    || '\U{1C}' <= c <= ' '
    || c == '\U{85}' || c == '\U{A0}' || c == '\U{1680}'
    || '\U{2000}' <= c <= '\U{200A}'
    || c == '\U{2028}' || c == '\U{2029}' || c == '\U{202F}' || c == '\U{205F}' || c == '\U{3000}'
  }

  /** Characters at which `str.splitlines` ends a line. */
  predicate IsLineBreak(c: char) {
    || '\n' <= c <= '\r'
    || '\U{1C}' <= c <= '\U{1E}'
    || c == '\U{85}' || c == '\U{2028}' || c == '\U{2029}'
  }

  /** The characters that Python's documentation lists for `str.splitlines`, and
      those that Unicode counts as white space besides the four separators that
      only Python does. */
  lemma CharacterLists(c: char)
    ensures IsLineBreak(c) <==> c in "\n\U{B}\U{C}\r\U{1C}\U{1D}\U{1E}\U{85}\U{2028}\U{2029}"
    ensures IsSpace(c) <==> (c in "\t\n\U{B}\U{C}\r\U{1C}\U{1D}\U{1E}\U{1F} \U{85}\U{A0}\U{1680}"
                         || c in "\U{2000}\U{2001}\U{2002}\U{2003}\U{2004}\U{2005}\U{2006}\U{2007}"
                         || c in "\U{2008}\U{2009}\U{200A}\U{2028}\U{2029}\U{202F}\U{205F}\U{3000}")
  {
  }

  predicate IsNewline(c: char) { c == '\n' }

  ghost predicate All(s: string, p: char -> bool) {
    forall i :: 0 <= i < |s| ==> p(s[i])
  }

  ghost predicate OneLine(s: string) {
    forall i :: 0 <= i < |s| ==> !IsLineBreak(s[i])
  }

  /** Length of the longest prefix whose characters all satisfy `p`. */
  function Span(s: string, p: char -> bool): (n: nat)
    ensures n <= |s|
    ensures forall i :: 0 <= i < n ==> p(s[i])
    ensures n < |s| ==> !p(s[n])
  {
    if s == "" || !p(s[0]) then 0 else 1 + Span(s[1..], p)
  }

  lemma SpanOf(a: string, b: string, p: char -> bool)
    requires All(a, p) && (b == "" || !p(b[0]))
    ensures Span(a + b, p) == |a|
  {
    if a != "" {
      assert (a + b)[1..] == a[1..] + b;
      SpanOf(a[1..], b, p);
    } else {
      assert a + b == b;
    }
  }

  // ----- strip -----

  function TrimLeft(s: string, p: char -> bool): string {
    s[Span(s, p)..]
  }

  lemma TrimLeftOf(a: string, b: string, p: char -> bool)
    requires All(a, p) && (b == "" || !p(b[0]))
    ensures TrimLeft(a + b, p) == b && Span(a + b, p) == |a|
  {
    SpanOf(a, b, p);
  }

  lemma TrimLeftParts(s: string, p: char -> bool) returns (a: string)
    ensures s == a + TrimLeft(s, p) && All(a, p) && |a| == Span(s, p)
    ensures TrimLeft(s, p) == "" || !p(TrimLeft(s, p)[0])
  {
    a := s[..Span(s, p)];
  }

  function TrimRight(s: string, p: char -> bool): (t: string)
    ensures t <= s
    ensures t == "" || !p(t[|t| - 1])
    ensures forall i :: |t| <= i < |s| ==> p(s[i])
  {
    if s == "" || !p(s[|s| - 1]) then s else TrimRight(s[..|s| - 1], p)
  }

  function Trim(s: string, p: char -> bool): string {
    TrimRight(TrimLeft(s, p), p)
  }

  ghost predicate Trimmed(s: string, p: char -> bool) {
    s == "" || (!p(s[0]) && !p(s[|s| - 1]))
  }

  lemma TrimIsTrimmed(s: string, p: char -> bool)
    ensures Trimmed(Trim(s, p), p)
  {
    var l := TrimLeft(s, p);
    assert l == "" || !p(l[0]);
  }

  lemma TrimFixes(s: string, p: char -> bool)
    ensures Trim(s, p) == s <==> Trimmed(s, p)
  {
    TrimIsTrimmed(s, p);
    if Trimmed(s, p) {
      assert Span(s, p) == 0;
    }
  }

  lemma TrimRightExtra(s: string, c: char, p: char -> bool)
    requires p(c)
    ensures TrimRight(s + [c], p) == TrimRight(s, p)
  {
    assert (s + [c])[..|s|] == s;
  }

  lemma TrimExtra(s: string, c: char, p: char -> bool)
    requires p(c)
    ensures Trim(s + [c], p) == Trim(s, p)
  {
    var n := Span(s, p);
    if n < |s| {
      assert s + [c] == s[..n] + (s[n..] + [c]);
      SpanOf(s[..n], s[n..] + [c], p);
      assert (s + [c])[n..] == s[n..] + [c];
      TrimRightExtra(s[n..], c, p);
    } else {
      SpanOf(s + [c], "", p);
      assert s + [c] + "" == s + [c];
      assert TrimLeft(s + [c], p) == "" && TrimLeft(s, p) == "";
    }
  }

  lemma {:induction false} TrimRightOf(b: string, c: string, p: char -> bool)
    requires All(c, p) && (b == "" || !p(b[|b| - 1]))
    ensures TrimRight(b + c, p) == b
    decreases |c|
  {
    if c != "" {
      var init := c[..|c| - 1];
      assert (b + c)[..|b + c| - 1] == b + init;
      TrimRightOf(b, init, p);
    } else {
      assert b + c == b;
    }
  }

  /** Trimming stops at a middle part that begins and ends with other characters. */
  lemma TrimMiddle(a: string, m: string, b: string, p: char -> bool)
    requires m != "" && !p(m[0]) && !p(m[|m| - 1])
    ensures Trim(a + m + b, p) == TrimLeft(a, p) + m + TrimRight(b, p)
  {
    var a2, b2 := TrimLeft(a, p), TrimRight(b, p);
    TrimLeftBefore(a, m + b, p);
    assert a + m + b == a + (m + b) && a2 + (m + b) == a2 + m + b;
    TrimRightAfter(a2 + m, b, p);
  }

  lemma TrimLeftBefore(a: string, rest: string, p: char -> bool)
    requires rest != "" && !p(rest[0])
    ensures TrimLeft(a + rest, p) == TrimLeft(a, p) + rest
  {
    var a1 := TrimLeftParts(a, p);
    var a2 := TrimLeft(a, p);
    hide TrimLeft, Span;
    assert a + rest == a1 + (a2 + rest);
    assert (a2 + rest)[0] == if a2 == "" then rest[0] else a2[0];
    TrimLeftOf(a1, a2 + rest, p);
  }

  lemma TrimRightAfter(front: string, b: string, p: char -> bool)
    requires front != "" && !p(front[|front| - 1])
    ensures TrimRight(front + b, p) == front + TrimRight(b, p)
  {
    var b1 := TrimRight(b, p);
    var b2 := b[|b1|..];
    assert All(b2, p);
    hide TrimRight;
    assert front + b == (front + b1) + b2;
    assert (front + b1)[|front + b1| - 1] == if b1 == "" then front[|front| - 1] else b1[|b1| - 1];
    TrimRightOf(front + b1, b2, p);
  }

  lemma TrimLeftAll(s: string, p: char -> bool)
    requires All(s, p)
    ensures TrimLeft(s, p) == ""
  {
    assert s + "" == s;
    TrimLeftOf(s, "", p);
  }

  /** Exactly the characters of the set at both ends go. */
  lemma TrimOf(a: string, m: string, b: string, p: char -> bool)
    requires All(a, p) && All(b, p) && Trimmed(m, p) && m != ""
    ensures Trim(a + m + b, p) == m
  {
    TrimMiddle(a, m, b, p);
    TrimLeftAll(a, p);
    TrimRightOf("", b, p);
    assert "" + b == b;
  }

  // ----- split and join -----

  function Split(s: string, sep: char): (parts: seq<string>)
    ensures |parts| >= 1
  {
    if s == "" then [""]
    else if s[0] == sep then [""] + Split(s[1..], sep)
    else
      var t := Split(s[1..], sep);
      [[s[0]] + t[0]] + t[1..]
  }

  function Join(parts: seq<string>, sep: char): string {
    if parts == [] then ""
    else if |parts| == 1 then parts[0]
    else parts[0] + [sep] + Join(parts[1..], sep)
  }

  lemma SplitStep(s: string, sep: char)
    requires s != ""
    ensures var t := Split(s[1..], sep);
            Split(s, sep) == if s[0] == sep then [""] + t else [[s[0]] + t[0]] + t[1..]
  {
  }

  lemma ConcatAfterHead(t: seq<string>, u: seq<string>)
    requires t != []
    ensures (t + u)[0] == t[0] && (t + u)[1..] == t[1..] + u
    ensures forall x: string :: [x] + (t[1..] + u) == ([x] + t[1..]) + u
    ensures [""] + (t + u) == ([""] + t) + u
  {
  }

  lemma {:induction false} SplitJoined(a: string, b: string, sep: char)
    ensures Split(a + [sep] + b, sep) == Split(a, sep) + Split(b, sep)
  {
    var s := a + [sep] + b;
    if a == "" {
      assert s[1..] == b;
    } else {
      assert s[1..] == a[1..] + [sep] + b;
      SplitJoined(a[1..], b, sep);
      SplitStep(a, sep);
      SplitStep(s, sep);
      hide Split;
      ConcatAfterHead(Split(a[1..], sep), Split(b, sep));
    }
  }

  ghost predicate Without(s: string, sep: char) {
    forall i :: 0 <= i < |s| ==> s[i] != sep
  }

  lemma {:induction false} SplitOfWithout(s: string, sep: char)
    requires Without(s, sep)
    ensures Split(s, sep) == [s]
  {
    if s != "" {
      SplitOfWithout(s[1..], sep);
      assert [s[0]] + s[1..] == s;
    }
  }

  lemma {:induction false} JoinSplit(s: string, sep: char)
    ensures Join(Split(s, sep), sep) == s
  {
    if s != "" {
      JoinSplit(s[1..], sep);
      var t := Split(s[1..], sep);
      if s[0] == sep {
        assert ([""] + t)[1..] == t;
        assert s == [sep] + s[1..];
      } else {
        var u := [[s[0]] + t[0]] + t[1..];
        assert u[1..] == t[1..];
        assert s == [s[0]] + s[1..];
      }
    }
  }

  lemma {:induction false} SplitJoin(parts: seq<string>, sep: char)
    requires parts != []
    requires forall k :: 0 <= k < |parts| ==> Without(parts[k], sep)
    ensures Split(Join(parts, sep), sep) == parts
  {
    SplitOfWithout(parts[0], sep);
    if |parts| > 1 {
      SplitJoin(parts[1..], sep);
      SplitJoined(parts[0], Join(parts[1..], sep), sep);
      assert parts == [parts[0]] + parts[1..];
    }
  }

  // ----- splitlines -----

  predicate NotBreak(c: char) { !IsLineBreak(c) }

  /** Width of the line break at the front of `s`: "\r\n" counts as one break. */
  function BreakWidth(s: string): (n: nat)
    requires s != ""
    ensures 1 <= n <= |s|
  {
    if s[0] == '\r' && |s| > 1 && s[1] == '\n' then 2 else 1
  }

  function SplitLines(s: string): seq<string>
    decreases |s|
  {
    if s == "" then []
    else
      var n := Span(s, NotBreak);
      if n == |s| then [s]
      else [s[..n]] + SplitLines(s[n + BreakWidth(s[n..])..])
  }

  /** `br` is one line break, and `tail` does not continue it. */
  ghost predicate IsBreakBefore(br: string, tail: string) {
    || br == "\r\n"
    || (|br| == 1 && IsLineBreak(br[0]) && (br == "\r" && tail != "" ==> tail[0] != '\n'))
  }

  lemma {:induction false} SplitLinesStep(line: string, br: string, tail: string)
    requires OneLine(line) && IsBreakBefore(br, tail)
    ensures SplitLines(line + br + tail) == [line] + SplitLines(tail)
  {
    var s := line + br + tail;
    assert s == line + (br + tail);
    SpanOf(line, br + tail, NotBreak);
    BreakWidthOf(br, tail);
    hide Span, BreakWidth, IsBreakBefore;
    assert s[|line|..] == br + tail;
    assert s[|line| + |br|..] == tail && s[..|line|] == line;
  }

  lemma BreakWidthOf(br: string, tail: string)
    requires IsBreakBefore(br, tail)
    ensures br != "" && BreakWidth(br + tail) == |br|
  {
  }

  /** Text that is not one line decomposes at its first break. */
  lemma FirstBreak(s: string) returns (line: string, br: string, tail: string)
    requires Span(s, NotBreak) < |s|
    ensures s == line + br + tail && OneLine(line) && IsBreakBefore(br, tail)
    ensures |tail| < |s| && br != ""
    ensures tail == "" ==> s[|s| - 1] == br[|br| - 1]
    ensures tail != "" ==> s[|s| - 1] == tail[|tail| - 1]
  {
    var n := Span(s, NotBreak);
    var w := BreakWidth(s[n..]);
    line, br, tail := s[..n], s[n..n + w], s[n + w..];
  }

  /** The lines of a text written as one line, a newline, and more text. */
  lemma SplitLinesHead(line: string, rest: string)
    requires OneLine(line)
    ensures SplitLines(line + "\n" + rest) == [line] + SplitLines(rest)
  {
    SplitLinesStep(line, "\n", rest);
  }

  lemma SplitLinesOneLine(s: string)
    requires OneLine(s)
    ensures SplitLines(s) == if s == "" then [] else [s]
  {
  }

  lemma Reassociate<T>(a: seq<T>, b: seq<T>, c: seq<T>, d: seq<T>)
    ensures a + (b + c + d) == (a + b) + c + d
  {
  }

  /** At most one extra blank line separates the lines of `text` from those of
      what follows the newline. */
  lemma {:induction false} SplitLinesAppend(text: string, rest: string) returns (blank: seq<string>)
    ensures blank == [] || blank == [""]
    ensures SplitLines(text + "\n" + rest) == SplitLines(text) + blank + SplitLines(rest)
    ensures text == "" ==> blank == [""]
    decreases |text|
  {
    hide SplitLines;
    if Span(text, NotBreak) == |text| {
      SplitLinesHead(text, rest);
      SplitLinesOneLine(text);
      blank := if text == "" then [""] else [];
      assert SplitLines(text) + blank == [text];
    } else {
      var line, br, tail := FirstBreak(text);
      SplitLinesStep(line, br, tail);
      if tail == "" && br == "\r" {
        // the newline joins the carriage return that ends the text
        assert text + "\n" + rest == line + "\r\n" + rest;
        SplitLinesStep(line, "\r\n", rest);
        SplitLinesOneLine("");
        blank := [];
        assert SplitLines(text) + blank == [line];
      } else {
        assert text + "\n" + rest == line + br + (tail + "\n" + rest);
        SplitLinesStep(line, br, tail + "\n" + rest);
        blank := SplitLinesAppend(tail, rest);
        Reassociate([line], SplitLines(tail), blank, SplitLines(rest));
      }
    }
  }

  ghost predicate LfOnly(s: string) {
    forall i :: 0 <= i < |s| ==> (IsLineBreak(s[i]) ==> s[i] == '\n')
  }

  lemma LfOnlyTail(a: string, b: string)
    requires LfOnly(a + b)
    ensures LfOnly(b)
  {
    forall i | 0 <= i < |b| ensures IsLineBreak(b[i]) ==> b[i] == '\n' {
      assert b[i] == (a + b)[|a| + i];
    }
  }

  /** For text whose only break is the newline, `splitlines` and `split('\n')`
      agree except for a final empty part. */
  lemma {:induction false} SplitLinesVsSplit(s: string)
    requires LfOnly(s)
    ensures Split(s, '\n') == SplitLines(s) + (if s == "" || s[|s| - 1] == '\n' then [""] else [])
    decreases |s|
  {
    hide SplitLines, Split;
    if Span(s, NotBreak) == |s| {
      SplitOfWithout(s, '\n');
      SplitLinesOneLine(s);
    } else {
      var line, br, tail := FirstBreak(s);
      SplitLinesStep(line, br, tail);
      assert br[0] == s[|line|] && IsLineBreak(br[0]);
      assert br[0] == '\n' && br == ['\n'];
      SplitOfWithout(line, '\n');
      SplitJoined(line, tail, '\n');
      LfOnlyTail(line + br, tail);
      SplitLinesVsSplit(tail);
      var last := if tail == "" || tail[|tail| - 1] == '\n' then [""] else [];
      Reassociate([line], SplitLines(tail), last, []);
      assert Split(s, '\n') == ([line] + SplitLines(tail)) + last;
    }
  }
}
