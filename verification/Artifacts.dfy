/** The multi-file artifact protocol: marker recognition, path cleaning, the
    line-driven parser, and the printer fixed by the prompt instructions. */
module Artifacts {
  import opened PyText

  datatype File = File(path: string, content: string, truncated: bool)

  predicate IsEquals(c: char) { c == '=' }
  predicate IsSlash(c: char) { c == '/' }
  predicate IsDoubleQuote(c: char) { c == '\"' }
  predicate IsSingleQuote(c: char) { c == '\'' }

  // ----- marker lines -----

  function AfterPrefix(s: string, prefix: string): Option<string> {
    if prefix <= s then Some(s[|prefix|..]) else None
  }

  /** What follows `=+ \s* word \s* [nonce]` at the front of a line. */
  function MatchHead(line: string, word: string, nonce: string): Option<string> {
    if Span(line, IsEquals) == 0 then None
    else
      var afterWord := AfterPrefix(TrimLeft(TrimLeft(line, IsEquals), IsSpace), word);
      if afterWord.None? then None
      else AfterPrefix(TrimLeft(afterWord.value, IsSpace), "[" + nonce + "]")
  }

  /** Does `t` have the form `\s* =* \s*`? */
  predicate IsTail(t: string) {
    TrimLeft(TrimLeft(TrimLeft(t, IsSpace), IsEquals), IsSpace) == ""
  }

  /** The first cut at or after `n` that leaves only a tail: a lazy quantifier. */
  function LazyEnd(r: string, n: nat): (m: nat)
    requires 1 <= n <= |r|
    ensures n <= m <= |r|
    decreases |r| - n
  {
    if n == |r| || IsTail(r[n..]) then n else LazyEnd(r, n + 1)
  }

  lemma {:induction false} LazyEndIsFirst(r: string, n: nat)
    requires 1 <= n <= |r|
    ensures var m := LazyEnd(r, n);
            && (m == |r| || IsTail(r[m..]))
            && forall k :: n <= k < m ==> !IsTail(r[k..])
    decreases |r| - n
  {
    hide IsTail;
    if n < |r| && !IsTail(r[n..]) {
      LazyEndIsFirst(r, n + 1);
    }
  }

  /** What stands after `path=` on a line with a BEGIN head. */
  function PathField(line: string, nonce: string): Option<string> {
    var head := MatchHead(line, "BEGIN FILE", nonce);
    if head.None? then None else AfterPrefix(TrimLeft(head.value, IsSpace), "path=")
  }

  function MatchBegin(line: string, nonce: string): Option<string> {
    var field := PathField(line, nonce);
    if field.None? || field.value == "" then None
    else Some(field.value[..LazyEnd(field.value, 1)])
  }

  predicate MatchEnd(line: string, nonce: string) {
    MatchHead(line, "END FILE", nonce).Some?
  }

  predicate IsMarker(line: string, nonce: string) {
    MatchBegin(line, nonce).Some? || MatchEnd(line, nonce)
  }

  // The same two patterns as languages of strings.

  ghost predicate HeadSplit(line: string, word: string, nonce: string,
                            eqs: string, s1: string, s2: string, rest: string) {
    && line == eqs + (s1 + (word + (s2 + (("[" + nonce + "]") + rest))))
    && eqs != "" && All(eqs, IsEquals) && All(s1, IsSpace) && All(s2, IsSpace)
  }

  ghost predicate FieldSplit(line: string, nonce: string,
                             eqs: string, s1: string, s2: string, s3: string, field: string) {
    && HeadSplit(line, "BEGIN FILE", nonce, eqs, s1, s2, s3 + ("path=" + field))
    && All(s3, IsSpace)
  }

  /** The line matches the BEGIN pattern with `path` as its group. */
  ghost predicate BeginMatches(line: string, nonce: string, path: string) {
    path != "" &&
    exists eqs, s1, s2, s3, t1, t2, t3 ::
      && FieldSplit(line, nonce, eqs, s1, s2, s3, path + (t1 + t2 + t3))
      && All(t1, IsSpace) && All(t2, IsEquals) && All(t3, IsSpace)
  }

  lemma HeadComplete(line: string, word: string, nonce: string,
                     eqs: string, s1: string, s2: string, rest: string)
    requires HeadSplit(line, word, nonce, eqs, s1, s2, rest)
    requires word != "" && !IsEquals(word[0]) && !IsSpace(word[0])
    ensures MatchHead(line, word, nonce) == Some(rest)
  {
    hide Span, TrimLeft;
    var tagged := ("[" + nonce + "]") + rest;
    var afterWord := s2 + tagged;
    var atWord := word + afterWord;
    assert !IsEquals((s1 + atWord)[0]) by { if s1 != "" { assert IsSpace(s1[0]); } }
    TrimLeftOf(eqs, s1 + atWord, IsEquals);
    TrimLeftOf(s1, atWord, IsSpace);
    assert AfterPrefix(atWord, word) == Some(afterWord);
    TrimLeftOf(s2, tagged, IsSpace);
    assert AfterPrefix(tagged, "[" + nonce + "]") == Some(rest);
  }

  lemma HeadSound(line: string, word: string, nonce: string)
    returns (eqs: string, s1: string, s2: string)
    requires MatchHead(line, word, nonce).Some?
    ensures HeadSplit(line, word, nonce, eqs, s1, s2, MatchHead(line, word, nonce).value)
  {
    hide Span, TrimLeft, All;
    eqs := TrimLeftParts(line, IsEquals);
    s1 := TrimLeftParts(TrimLeft(line, IsEquals), IsSpace);
    var b := TrimLeft(TrimLeft(line, IsEquals), IsSpace);
    var c := AfterPrefix(b, word).value;
    s2 := TrimLeftParts(c, IsSpace);
    assert b == word + c;
    assert TrimLeft(c, IsSpace) == ("[" + nonce + "]") + MatchHead(line, word, nonce).value;
  }

  lemma FieldSound(line: string, nonce: string)
    returns (eqs: string, s1: string, s2: string, s3: string)
    requires PathField(line, nonce).Some?
    ensures FieldSplit(line, nonce, eqs, s1, s2, s3, PathField(line, nonce).value)
  {
    hide Span, TrimLeft, All, MatchHead;
    eqs, s1, s2 := HeadSound(line, "BEGIN FILE", nonce);
    var rest := MatchHead(line, "BEGIN FILE", nonce).value;
    s3 := TrimLeftParts(rest, IsSpace);
    assert TrimLeft(rest, IsSpace) == "path=" + PathField(line, nonce).value;
  }

  lemma FieldComplete(line: string, nonce: string,
                      eqs: string, s1: string, s2: string, s3: string, field: string)
    requires FieldSplit(line, nonce, eqs, s1, s2, s3, field)
    ensures PathField(line, nonce) == Some(field)
  {
    hide Span, TrimLeft, All, MatchHead;
    HeadComplete(line, "BEGIN FILE", nonce, eqs, s1, s2, s3 + ("path=" + field));
    TrimLeftOf(s3, "path=" + field, IsSpace);
    assert AfterPrefix("path=" + field, "path=") == Some(field);
  }

  lemma TailOf(a: string, b: string, c: string)
    requires All(a, IsSpace) && All(b, IsEquals) && All(c, IsSpace)
    ensures IsTail(a + b + c)
  {
    hide Span, TrimLeft;
    if b == "" {
      assert a + b + c == (a + c) + "";
      TrimLeftOf(a + c, "", IsSpace);
      TrimLeftOf("", "", IsEquals);
      TrimLeftOf("", "", IsSpace);
      assert "" + "" == "";
    } else {
      assert a + b + c == a + (b + c);
      TrimLeftOf(a, b + c, IsSpace);
      TrimLeftOf(b, c, IsEquals);
      assert c == c + "";
      TrimLeftOf(c, "", IsSpace);
    }
  }

  lemma TailSound(t: string) returns (a: string, b: string, c: string)
    requires IsTail(t)
    ensures t == a + b + c && All(a, IsSpace) && All(b, IsEquals) && All(c, IsSpace)
  {
    hide Span, TrimLeft, All;
    a := TrimLeftParts(t, IsSpace);
    b := TrimLeftParts(TrimLeft(t, IsSpace), IsEquals);
    c := TrimLeftParts(TrimLeft(TrimLeft(t, IsSpace), IsEquals), IsSpace);
    assert c + "" == c;
  }

  /** The recogniser agrees with the pattern: it succeeds exactly on the lines
      that match, and its group is the shortest that any match gives. */
  lemma MatchBeginIsLazyMatch(line: string, nonce: string, path: string)
    ensures MatchBegin(line, nonce) == Some(path)
       <==> BeginMatches(line, nonce, path)
            && forall q :: BeginMatches(line, nonce, q) ==> |path| <= |q|
    ensures BeginMatches(line, nonce, path) ==> MatchBegin(line, nonce).Some?
  {
    hide PathField, IsTail, FieldSplit, All;
    forall q | BeginMatches(line, nonce, q)
      ensures PathField(line, nonce).Some? && q <= PathField(line, nonce).value
      ensures MatchBegin(line, nonce).Some? && |MatchBegin(line, nonce).value| <= |q|
    {
      MatchIsCut(line, nonce, q);
      LazyEndIsFirst(PathField(line, nonce).value, 1);
    }
    if MatchBegin(line, nonce).Some? {
      BeginSound(line, nonce);
      var got := MatchBegin(line, nonce).value;
      var field := PathField(line, nonce).value;
      assert BeginMatches(line, nonce, got) && got == field[..|got|];
      assert forall q :: BeginMatches(line, nonce, q) ==> q == field[..|q|];
    }
  }

  lemma MatchIsCut(line: string, nonce: string, q: string)
    requires BeginMatches(line, nonce, q)
    ensures PathField(line, nonce).Some? && q <= PathField(line, nonce).value
    ensures IsTail(PathField(line, nonce).value[|q|..])
  {
    hide PathField, IsTail, FieldSplit;
    var eqs, s1, s2, s3, t1, t2, t3 :|
      && FieldSplit(line, nonce, eqs, s1, s2, s3, q + (t1 + t2 + t3))
      && All(t1, IsSpace) && All(t2, IsEquals) && All(t3, IsSpace);
    FieldComplete(line, nonce, eqs, s1, s2, s3, q + (t1 + t2 + t3));
    TailOf(t1, t2, t3);
    assert (q + (t1 + t2 + t3))[|q|..] == t1 + t2 + t3;
  }

  lemma {:induction false} BeginSound(line: string, nonce: string)
    requires MatchBegin(line, nonce).Some?
    ensures BeginMatches(line, nonce, MatchBegin(line, nonce).value)
  {
    hide PathField, IsTail, FieldSplit, All;
    var field := PathField(line, nonce).value;
    var m := LazyEnd(field, 1);
    LazyEndIsFirst(field, 1);
    var eqs, s1, s2, s3 := FieldSound(line, nonce);
    if m == |field| {
      TailOf("", "", "") by { AllEmpty(IsSpace); AllEmpty(IsEquals); }
      assert "" + "" + "" == field[m..];
    }
    var t1, t2, t3 := TailSound(field[m..]);
    assert field == field[..m] + (t1 + t2 + t3);
  }

  /** The line begins as the END pattern says; the pattern is not anchored at
      the end, so anything may follow the nonce. */
  ghost predicate EndMatches(line: string, nonce: string) {
    exists eqs, s1, s2, rest :: HeadSplit(line, "END FILE", nonce, eqs, s1, s2, rest)
  }

  /** The END test accepts exactly the language of its pattern. */
  lemma MatchEndIff(line: string, nonce: string)
    ensures MatchEnd(line, nonce) <==> EndMatches(line, nonce)
  {
    hide MatchHead, HeadSplit;
    if MatchEnd(line, nonce) {
      var eqs, s1, s2 := HeadSound(line, "END FILE", nonce);
    }
    if EndMatches(line, nonce) {
      var eqs, s1, s2, rest :| HeadSplit(line, "END FILE", nonce, eqs, s1, s2, rest);
      HeadComplete(line, "END FILE", nonce, eqs, s1, s2, rest);
    }
  }

  lemma AllEmpty(p: char -> bool)
    ensures All("", p)
  {
  }

  // ----- path cleaning -----

  function ForwardSlashes(s: string): (t: string)
    ensures |t| == |s|
    ensures forall i :: 0 <= i < |s| ==> t[i] == if s[i] == '\\' then '/' else s[i]
  {
    seq(|s|, i requires 0 <= i < |s| => if s[i] == '\\' then '/' else s[i])
  }

  function DropEmpty(parts: seq<string>): (kept: seq<string>)
    ensures forall x :: x in kept ==> x in parts && x != "" && x != "."
  {
    if parts == [] then []
    else if parts[0] == "" || parts[0] == "." then DropEmpty(parts[1..])
    else [parts[0]] + DropEmpty(parts[1..])
  }

  function Unquote(path: string): string {
    Trim(Trim(Trim(path, IsSpace), IsDoubleQuote), IsSingleQuote)
  }

  function SafePath(path: string): Option<string> {
    var p := ForwardSlashes(Unquote(path));
    if p == "" then None
    else
      var parts := DropEmpty(Split(TrimLeft(p, IsSlash), '/'));
      if ".." in parts then None
      else
        var cleaned := Join(parts, '/');
        if cleaned == "" then None else Some(cleaned)
  }

  /** A path that stays below its root: no empty, "." or ".." segment, so no
      leading slash either, and no backslash. */
  ghost predicate Confined(p: string) {
    && p != "" && Without(p, '\\')
    && forall x :: x in Split(p, '/') ==> x != "" && x != "." && x != ".."
  }

  ghost predicate Canonical(p: string) {
    Confined(p) && Trimmed(p, IsSpace) && Trimmed(p, IsDoubleQuote) && Trimmed(p, IsSingleQuote)
  }

  lemma {:induction false} SplitParts(s: string, sep: char)
    ensures forall x :: x in Split(s, sep) ==> Without(x, sep)
    ensures forall c: char :: Without(s, c) ==> forall x :: x in Split(s, sep) ==> Without(x, c)
  {
    if s != "" {
      SplitParts(s[1..], sep);
      var t := Split(s[1..], sep);
      assert t[0] in t;
      forall x | x in Split(s, sep) ensures Without(x, sep) {
        if x !in t && x != "" { assert x == [s[0]] + t[0]; }
      }
      forall c: char | Without(s, c) ensures forall x :: x in Split(s, sep) ==> Without(x, c) {
        assert Without(s[1..], c);
        forall x | x in Split(s, sep) ensures Without(x, c) {
          if x !in t && x != "" { assert x == [s[0]] + t[0]; }
        }
      }
    }
  }

  lemma {:induction false} JoinWithout(parts: seq<string>, sep: char, c: char)
    requires c != sep && forall x :: x in parts ==> Without(x, c)
    ensures Without(Join(parts, sep), c)
  {
    if |parts| > 1 {
      assert forall x :: x in parts[1..] ==> x in parts;
      JoinWithout(parts[1..], sep, c);
      assert parts[0] in parts;
    } else if |parts| == 1 {
      assert parts[0] in parts;
    }
  }

  lemma {:induction false} DropEmptyShortens(parts: seq<string>)
    ensures |Join(DropEmpty(parts), '/')| <= |Join(parts, '/')|
  {
    if parts != [] {
      DropEmptyShortens(parts[1..]);
      if parts[0] != "" && parts[0] != "." && |parts| > 1 {
        var kept := [parts[0]] + DropEmpty(parts[1..]);
        assert kept[1..] == DropEmpty(parts[1..]);
      }
    }
  }

  lemma {:induction false} DropEmptyKeeps(parts: seq<string>)
    requires forall x :: x in parts ==> x != "" && x != "."
    ensures DropEmpty(parts) == parts
  {
    if parts != [] {
      assert parts[0] in parts && forall x :: x in parts[1..] ==> x in parts;
      DropEmptyKeeps(parts[1..]);
      assert parts == [parts[0]] + parts[1..];
    }
  }

  lemma NoBackslash(s: string)
    ensures Without(TrimLeft(ForwardSlashes(s), IsSlash), '\\')
  {
  }

  /** Whatever text a model writes after `path=`, the path that is used stays
      inside the output directory. */
  lemma {:induction false} SafePathConfines(path: string)
    ensures SafePath(path).Some? ==> Confined(SafePath(path).value)
  {
    if SafePath(path).Some? {
      var t := TrimLeft(ForwardSlashes(Unquote(path)), IsSlash);
      NoBackslash(Unquote(path));
      hide Unquote, ForwardSlashes, TrimLeft, Without, Split, Join;
      var parts := DropEmpty(Split(t, '/'));
      SplitParts(t, '/');
      JoinWithout(parts, '/', '\\');
      SplitJoin(parts, '/');
    }
  }

  lemma SafePathShortens(path: string)
    requires SafePath(path).Some?
    ensures |SafePath(path).value| <= |Unquote(path)|
  {
    var t := TrimLeft(ForwardSlashes(Unquote(path)), IsSlash);
    DropEmptyShortens(Split(t, '/'));
    JoinSplit(t, '/');
  }

  /** The fixed points of path cleaning are exactly the canonical paths. */
  lemma SafePathFixesCanonical(p: string)
    ensures SafePath(p) == Some(p) <==> Canonical(p)
  {
    var a := Trim(p, IsSpace);
    var b := Trim(a, IsDoubleQuote);
    TrimFixes(p, IsSpace);
    TrimFixes(a, IsDoubleQuote);
    TrimFixes(b, IsSingleQuote);
    hide Trim, TrimLeft, Confined;
    if SafePath(p) == Some(p) {
      SafePathConfines(p);
      SafePathShortens(p);
      TrimSameLength(p, IsSpace);
      TrimSameLength(a, IsDoubleQuote);
      TrimSameLength(b, IsSingleQuote);
    }
    if Canonical(p) {
      CanonicalIsFixed(p);
    }
  }

  lemma CanonicalIsFixed(p: string)
    requires Canonical(p)
    ensures SafePath(p) == Some(p)
  {
    TrimFixes(p, IsSpace);
    TrimFixes(p, IsDoubleQuote);
    TrimFixes(p, IsSingleQuote);
    hide Trim;
    if Canonical(p) {
      assert ForwardSlashes(p) == p;
      var parts := Split(p, '/');
      JoinSplit(p, '/');
      assert parts[0] in parts;
      assert p[0] != '/';
      assert TrimLeft(p, IsSlash) == p;
      DropEmptyKeeps(parts);
    }
  }

  lemma TrimSameLength(s: string, p: char -> bool)
    ensures |Trim(s, p)| <= |s|
    ensures |Trim(s, p)| == |s| ==> Trim(s, p) == s
  {
  }

  // ----- the parser -----

  /** The three variables the parser's loop updates. */
  datatype Scan = Scan(path: Option<string>, buf: seq<string>, files: seq<File>)

  const START := Scan(None, [], [])

  function Render(buf: seq<string>): string {
    Trim(Join(buf, '\n'), IsNewline) + "\n"
  }

  function Flush(st: Scan, truncated: bool): Scan {
    if st.path.None? then st
    else
      match SafePath(st.path.value)
      case None => Scan(None, [], st.files)
      case Some(p) => Scan(None, [], st.files + [File(p, Render(st.buf), truncated)])
  }

  function ScanLine(st: Scan, line: string, nonce: string): Scan {
    match MatchBegin(line, nonce)
    case Some(p) => Scan(Some(p), [], Flush(st, true).files)
    case None =>
      if st.path.None? then st
      else if MatchEnd(line, nonce) then Flush(st, false)
      else st.(buf := st.buf + [line])
  }

  function ScanLines(st: Scan, lines: seq<string>, nonce: string): Scan {
    if lines == [] then st
    else ScanLine(ScanLines(st, lines[..|lines| - 1], nonce), lines[|lines| - 1], nonce)
  }

  function ParseLines(lines: seq<string>, nonce: string): seq<File> {
    Flush(ScanLines(START, lines, nonce), true).files
  }

  function Fallback(text: string): seq<File> {
    [File("output.md", text, false)]
  }

  function Parse(text: string, nonce: string): seq<File> {
    if nonce == "" then Fallback(text)
    else
      var files := ParseLines(SplitLines(text), nonce);
      if files == [] then Fallback(text) else files
  }

  method FlushBlock(path: Option<string>, buf: seq<string>, files: seq<File>, truncated: bool)
    returns (path': Option<string>, buf': seq<string>, files': seq<File>)
    ensures Scan(path', buf', files') == Flush(Scan(path, buf, files), truncated)
  {
    path', buf', files' := path, buf, files;
    if path.Some? {
      var sp := SafePath(path.value);
      if sp.Some? {
        files' := files + [File(sp.value, Render(buf), truncated)];
      }
      path', buf' := None, [];
    }
  }

  method ParseArtifacts(text: string, nonce: string) returns (files: seq<File>)
    ensures files == Parse(text, nonce)
  {
    hide MatchBegin, MatchEnd, SafePath, Render, SplitLines, Fallback;
    if nonce == "" {
      return Fallback(text);
    }
    var lines := SplitLines(text);
    var curPath: Option<string>, curBuf: seq<string> := None, [];
    files := [];
    for i := 0 to |lines|
      invariant Scan(curPath, curBuf, files) == ScanLines(START, lines[..i], nonce)
    {
      assert lines[..i + 1][..i] == lines[..i];
      var bm := MatchBegin(lines[i], nonce);
      if bm.Some? {
        curPath, curBuf, files := FlushBlock(curPath, curBuf, files, true);
        curPath, curBuf := bm, [];
      } else if curPath.Some? && MatchEnd(lines[i], nonce) {
        curPath, curBuf, files := FlushBlock(curPath, curBuf, files, false);
      } else if curPath.Some? {
        curBuf := curBuf + [lines[i]];
      }
    }
    assert lines[..|lines|] == lines;
    curPath, curBuf, files := FlushBlock(curPath, curBuf, files, true);
    if files == [] {
      files := Fallback(text);
    }
  }

  lemma {:induction false} ScanConcat(st: Scan, a: seq<string>, b: seq<string>, nonce: string)
    ensures ScanLines(st, a + b, nonce) == ScanLines(ScanLines(st, a, nonce), b, nonce)
    decreases |b|
  {
    hide ScanLine;
    if b == [] {
      assert a + b == a;
    } else {
      ScanConcat(st, a, b[..|b| - 1], nonce);
      assert (a + b)[..|a + b| - 1] == a + b[..|b| - 1];
    }
  }

  // ----- cut-off input -----

  /** Nothing that was already recorded changes, and while a block stays open
      its line buffer only grows. */
  lemma {:induction false} ScanMonotone(st: Scan, more: seq<string>, nonce: string)
    ensures st.files <= ScanLines(st, more, nonce).files
    ensures st.path.Some? && SafePath(st.path.value).Some? ==>
              var end := Flush(ScanLines(st, more, nonce), true).files;
              && |end| > |st.files|
              && end[|st.files|].path == SafePath(st.path.value).value
              && exists ext :: end[|st.files|].content == Render(st.buf + ext)
  {
    hide MatchBegin, MatchEnd, SafePath, Render;
    var end := ScanLines(st, more, nonce);
    if st.path.Some? && SafePath(st.path.value).Some? {
      var ext := OpenBlock(st, more, nonce);
      assert Flush(end, true).files[|st.files|].content == Render(st.buf + ext);
    } else if more != [] {
      ScanMonotone(st, more[..|more| - 1], nonce);
    }
  }

  lemma {:induction false} OpenBlock(st: Scan, more: seq<string>, nonce: string) returns (ext: seq<string>)
    requires st.path.Some? && SafePath(st.path.value).Some?
    ensures var sp := SafePath(st.path.value).value;
            var end := ScanLines(st, more, nonce);
            || end == Scan(st.path, st.buf + ext, st.files)
            || (st.files < end.files && end.files[|st.files|].path == sp
                && end.files[|st.files|].content == Render(st.buf + ext))
  {
    hide MatchBegin, MatchEnd, SafePath, Render;
    if more == [] {
      ext := [];
      assert st.buf + ext == st.buf;
    } else {
      var before := more[..|more| - 1];
      var line := more[|more| - 1];
      ext := OpenBlock(st, before, nonce);
      var mid := ScanLines(st, before, nonce);
      if mid == Scan(st.path, st.buf + ext, st.files)
         && MatchBegin(line, nonce).None? && !MatchEnd(line, nonce) {
        assert (st.buf + ext) + [line] == st.buf + (ext + [line]);
        ext := ext + [line];
      }
    }
  }

  /** Parsing a prefix of the lines gives the same files as parsing all of them,
      at the same positions, except that a last, truncated one may still grow:
      its path is final and its lines are a prefix of the final lines. */
  lemma {:induction false} CutOffParseIsStable(lines: seq<string>, more: seq<string>, nonce: string)
    ensures var cut := ScanLines(START, lines, nonce);
            var early := ParseLines(lines, nonce);
            var late := ParseLines(lines + more, nonce);
            && |early| <= |late|
            && (forall k :: 0 <= k < |early| && k < |cut.files| ==> early[k] == late[k])
            && |cut.files| <= |early| <= |cut.files| + 1
            && (|early| == |cut.files| + 1 ==>
                  var k := |cut.files|;
                  && early[k].truncated && early[k].path == late[k].path
                  && early[k].content == Render(cut.buf)
                  && exists ext :: late[k].content == Render(cut.buf + ext))
  {
    hide ScanLines, SafePath, Render;
    var cut := ScanLines(START, lines, nonce);
    ScanConcat(START, lines, more, nonce);
    ScanMonotone(cut, more, nonce);
  }

  // ----- printing and parsing back -----

  function BeginMarker(path: string, nonce: string): string {
    "===== BEGIN FILE [" + nonce + "] path=" + path + " ====="
  }

  function EndMarker(path: string, nonce: string): string {
    "===== END FILE [" + nonce + "] path=" + path + " ====="
  }

  function Block(f: File, nonce: string): string {
    BeginMarker(f.path, nonce) + "\n" + f.content + "\n" + EndMarker(f.path, nonce) + "\n"
  }

  function Print(files: seq<File>, nonce: string): string {
    if files == [] then "" else Block(files[0], nonce) + Print(files[1..], nonce)
  }

  /** Content after a trip through the parser: line ends become newlines, and
      blank lines at either end are replaced by one final newline. */
  function Normalize(content: string): string {
    Render(SplitLines(content))
  }

  function AsParsed(files: seq<File>): seq<File> {
    seq(|files|, i requires 0 <= i < |files| => File(files[i].path, Normalize(files[i].content), false))
  }

  ghost predicate MarkerFree(content: string, nonce: string) {
    forall line :: line in SplitLines(content) ==> !IsMarker(line, nonce)
  }

  ghost predicate Printable(f: File, nonce: string) {
    Canonical(f.path) && OneLine(f.path) && MarkerFree(f.content, nonce)
  }

  lemma BeginMarkerField(path: string, nonce: string)
    ensures PathField(BeginMarker(path, nonce), nonce) == Some(path + " =====")
  {
    var field := path + " =====";
    assert BeginMarker(path, nonce)
        == "=====" + (" " + ("BEGIN FILE" + (" " + (("[" + nonce + "]") + (" " + ("path=" + field))))));
    assert FieldSplit(BeginMarker(path, nonce), nonce, "=====", " ", " ", " ", field);
    FieldComplete(BeginMarker(path, nonce), nonce, "=====", " ", " ", " ", field);
  }

  /** In a tail, everything between a non-space and a later '=' is '='. */
  lemma TailShape(t: string, i: nat, j: nat, k: nat)
    requires IsTail(t) && i < j < k < |t| && !IsSpace(t[i]) && t[k] == '='
    ensures t[j] == '='
  {
    hide IsTail;
    var a, b, c := TailSound(t);
    assert i >= |a|;
    assert k < |a| + |b|;
    assert t[j] == b[j - |a|];
  }

  lemma NotTail(t: string)
    requires t != "" && !IsSpace(t[|t| - 1])
    ensures !IsTail(t + " =====")
  {
    hide IsTail;
    var s := t + " =====";
    if IsTail(s) {
      var n := |t|;
      assert s[n - 1] == t[n - 1] && s[n] == ' ' && s[n + 1] == '=';
      TailShape(s, n - 1, n, n + 1);
    }
  }

  /** The lazy group gives back the path that was printed, whatever '=' signs
      it holds, exactly when the path has no trailing space (a path of one
      character is taken as it is). */
  lemma BeginMarkerRecovered(path: string, nonce: string)
    ensures MatchBegin(BeginMarker(path, nonce), nonce) == Some(path)
       <==> path != "" && (|path| == 1 || !IsSpace(path[|path| - 1]))
  {
    hide PathField, IsTail, BeginMarker;
    BeginMarkerField(path, nonce);
    var field := path + " =====";
    var m := LazyEnd(field, 1);
    LazyEndIsFirst(field, 1);
    if path != "" {
      TailOf(" ", "=====", "");
      assert field[|path|..] == " " + "=====" + "";
      assert m <= |path|;
      if |path| > 1 && IsSpace(path[|path| - 1]) {
        var n := |path| - 1;
        TailOf(path[n..] + " ", "=====", "");
        assert field[n..] == (path[n..] + " ") + "=====" + "";
        assert m <= n;
      } else if m < |path| {
        assert field[m..] == path[m..] + " =====";
        NotTail(path[m..]);
        assert false;
      }
    } else {
      assert field[..m] != "";
    }
  }

  lemma EndMarkerShape(path: string, nonce: string)
    ensures EndMarker(path, nonce)
         == "=====" + (" " + ("END FILE" + (" " + (("[" + nonce + "]") + (" path=" + path + " =====")))))
  {
  }

  lemma EndMarkerRecognised(path: string, nonce: string)
    ensures MatchEnd(EndMarker(path, nonce), nonce) && MatchBegin(EndMarker(path, nonce), nonce).None?
  {
    hide Span, TrimLeft;
    var line := EndMarker(path, nonce);
    var rest := " path=" + path + " =====";
    var atWord := "END FILE" + (" " + (("[" + nonce + "]") + rest));
    EndMarkerShape(path, nonce);
    hide EndMarker;
    HeadComplete(line, "END FILE", nonce, "=====", " ", " ", rest);
    TrimLeftOf("=====", " " + atWord, IsEquals);
    TrimLeftOf(" ", atWord, IsSpace);
    assert atWord[0] == 'E';
  }

  lemma {:induction false} ScanBody(st: Scan, lines: seq<string>, nonce: string)
    requires st.path.Some? && forall x :: x in lines ==> !IsMarker(x, nonce)
    ensures ScanLines(st, lines, nonce) == st.(buf := st.buf + lines)
  {
    hide MatchBegin, MatchEnd;
    if lines == [] {
      assert st.buf + lines == st.buf;
    } else {
      var before := lines[..|lines| - 1];
      assert forall x :: x in before ==> x in lines;
      ScanBody(st, before, nonce);
      assert lines == before + [lines[|lines| - 1]];
      assert lines[|lines| - 1] in lines;
      assert st.buf + lines == (st.buf + before) + [lines[|lines| - 1]];
    }
  }

  lemma ScanOne(st: Scan, line: string, nonce: string)
    ensures ScanLines(st, [line], nonce) == ScanLine(st, line, nonce)
  {
    assert [line][..0] == [];
  }

  lemma {:induction false} JoinSnoc(parts: seq<string>, last: string, sep: char)
    requires parts != []
    ensures Join(parts + [last], sep) == Join(parts, sep) + [sep] + last
  {
    assert (parts + [last])[1..] == parts[1..] + [last];
    if |parts| > 1 {
      JoinSnoc(parts[1..], last, sep);
    }
  }

  lemma RenderBlank(buf: seq<string>)
    ensures Render(buf + [""]) == Render(buf)
  {
    if buf != [] {
      JoinSnoc(buf, "", '\n');
      assert Join(buf, '\n') + ['\n'] + "" == Join(buf, '\n') + ['\n'];
      TrimExtra(Join(buf, '\n'), '\n', IsNewline);
    } else {
      assert buf + [""] == [""];
    }
  }

  lemma MarkersAreLines(path: string, nonce: string)
    requires OneLine(path) && OneLine(nonce)
    ensures OneLine(BeginMarker(path, nonce)) && OneLine(EndMarker(path, nonce))
  {
  }

  lemma {:induction false} BlockLines(f: File, rest: string, nonce: string) returns (body: seq<string>)
    requires OneLine(f.path) && OneLine(nonce)
    ensures SplitLines(Block(f, nonce) + rest)
         == [BeginMarker(f.path, nonce)] + body + [EndMarker(f.path, nonce)] + SplitLines(rest)
    ensures body == SplitLines(f.content) || body == SplitLines(f.content) + [""]
  {
    hide SplitLines;
    var b, e := BeginMarker(f.path, nonce), EndMarker(f.path, nonce);
    hide BeginMarker, EndMarker;
    MarkersAreLines(f.path, nonce);
    var afterContent := e + "\n" + rest;
    var afterBegin := f.content + "\n" + afterContent;
    assert Block(f, nonce) + rest == b + "\n" + afterBegin;
    SplitLinesHead(b, afterBegin);
    var blank := SplitLinesAppend(f.content, afterContent);
    SplitLinesHead(e, rest);
    body := SplitLines(f.content) + blank;
  }

  lemma EmptyLineIsNoMarker(nonce: string)
    ensures !IsMarker("", nonce)
  {
  }

  lemma ScanBlock(st: Scan, f: File, body: seq<string>, nonce: string)
    requires st.path.None? && st.buf == [] && Printable(f, nonce)
    requires body == SplitLines(f.content) || body == SplitLines(f.content) + [""]
    ensures ScanLines(st, [BeginMarker(f.path, nonce)] + body + [EndMarker(f.path, nonce)], nonce)
         == Scan(None, [], st.files + [File(f.path, Normalize(f.content), false)])
  {
    hide SplitLines, MatchBegin, MatchEnd, SafePath, BeginMarker, EndMarker, Render, Canonical;
    var b, e := BeginMarker(f.path, nonce), EndMarker(f.path, nonce);
    var open := Scan(Some(f.path), [], st.files);
    ScanConcat(st, [b] + body, [e], nonce);
    ScanConcat(st, [b], body, nonce);
    ScanOne(st, b, nonce);
    CanonicalEnds(f.path);
    BeginMarkerRecovered(f.path, nonce);
    assert ScanLines(st, [b], nonce) == open;
    EmptyLineIsNoMarker(nonce);
    ScanBody(open, body, nonce);
    assert [] + body == body;
    ScanOne(open.(buf := body), e, nonce);
    EndMarkerRecognised(f.path, nonce);
    SafePathFixesCanonical(f.path);
    RenderBlank(SplitLines(f.content));
  }

  lemma CanonicalEnds(p: string)
    requires Canonical(p)
    ensures p != "" && !IsSpace(p[|p| - 1])
  {
  }

  lemma {:induction false} ScanPrinted(st: Scan, files: seq<File>, nonce: string)
    requires st.path.None? && st.buf == [] && OneLine(nonce)
    requires forall f :: f in files ==> Printable(f, nonce)
    ensures ScanLines(st, SplitLines(Print(files, nonce)), nonce)
         == Scan(None, [], st.files + AsParsed(files))
    decreases |files|
  {
    hide SplitLines, Block, Normalize, OneLine, Canonical, MarkerFree, ScanLine;
    if files == [] {
      SplitLinesOneLine("");
      assert OneLine("") by { OneLineEmpty(); }
      assert st.files + AsParsed(files) == st.files;
    } else {
      var f, rest := files[0], files[1..];
      assert f in files && forall g :: g in rest ==> g in files;
      var body := BlockLines(f, Print(rest, nonce), nonce);
      var block := [BeginMarker(f.path, nonce)] + body + [EndMarker(f.path, nonce)];
      hide BeginMarker, EndMarker;
      ScanBlock(st, f, body, nonce);
      var next := Scan(None, [], st.files + [File(f.path, Normalize(f.content), false)]);
      ScanConcat(st, block, SplitLines(Print(rest, nonce)), nonce);
      ScanPrinted(next, rest, nonce);
      assert AsParsed(files) == [File(f.path, Normalize(f.content), false)] + AsParsed(rest);
      assert st.files + AsParsed(files) == next.files + AsParsed(rest);
    }
  }

  lemma OneLineEmpty()
    ensures OneLine("")
  {
  }

  lemma {:induction false} ScanProse(lines: seq<string>, nonce: string)
    requires forall x :: x in lines ==> MatchBegin(x, nonce).None?
    ensures ScanLines(START, lines, nonce) == START
  {
    hide MatchBegin, MatchEnd;
    if lines != [] {
      var before := lines[..|lines| - 1];
      assert forall x :: x in before ==> x in lines;
      ScanProse(before, nonce);
      assert lines[|lines| - 1] in lines;
    }
  }

  /** Printing files in the marker format and parsing the reply returns the
      same files in order, none truncated; contents come back with normalised
      line ends.  The nonce is any non-empty one-line token. */
  lemma {:induction false} PrintThenParse(files: seq<File>, nonce: string)
    requires nonce != "" && OneLine(nonce) && files != []
    requires forall f :: f in files ==> Printable(f, nonce)
    ensures Parse(Print(files, nonce), nonce) == AsParsed(files)
  {
    hide SplitLines, Print, Printable, ScanLines, Normalize;
    ScanPrinted(START, files, nonce);
    assert [] + AsParsed(files) == AsParsed(files);
  }

  /** Lines without a BEGIN marker leave the scan where it started. */
  lemma ScanAfterProse(prose: string, text: string, nonce: string)
    requires forall line :: line in SplitLines(prose) ==> MatchBegin(line, nonce).None?
    ensures ScanLines(START, SplitLines(prose + "\n" + text), nonce) == ScanLines(START, SplitLines(text), nonce)
  {
    hide SplitLines, ScanLines, MatchBegin, MatchEnd;
    var blank := SplitLinesAppend(prose, text);
    EmptyLineIsNoMarker(nonce);
    ScanProse(SplitLines(prose) + blank, nonce);
    ScanConcat(START, SplitLines(prose) + blank, SplitLines(text), nonce);
  }

  /** A prose note before the first file changes nothing. */
  lemma ProseThenPrintThenParse(prose: string, files: seq<File>, nonce: string)
    requires nonce != "" && OneLine(nonce) && files != []
    requires forall line :: line in SplitLines(prose) ==> MatchBegin(line, nonce).None?
    requires forall f :: f in files ==> Printable(f, nonce)
    ensures Parse(prose + "\n" + Print(files, nonce), nonce) == AsParsed(files)
  {
    ScanAfterProse(prose, Print(files, nonce), nonce);
    hide SplitLines, Print, Printable, ScanLines, MatchBegin;
    ScanPrinted(START, files, nonce);
    assert [] + AsParsed(files) == AsParsed(files);
  }

  // ----- what parsing produces can be printed again -----

  lemma {:induction false} SplitLinesAreOneLine(s: string)
    ensures forall x :: x in SplitLines(s) ==> OneLine(x)
    decreases |s|
  {
    if s == "" {
    } else if Span(s, NotBreak) == |s| {
      SplitLinesOneLine(s);
    } else {
      var line, br, tail := FirstBreak(s);
      SplitLinesStep(line, br, tail);
      hide SplitLines, OneLine;
      SplitLinesAreOneLine(tail);
    }
  }

  /** Trimming newlines only drops empty parts. */
  lemma {:induction false} TrimLeftParts'(s: string)
    ensures forall x :: x in Split(TrimLeft(s, IsNewline), '\n') ==> x in Split(s, '\n')
  {
    if s != "" && s[0] == '\n' {
      TrimLeftParts'(s[1..]);
      assert TrimLeft(s, IsNewline) == TrimLeft(s[1..], IsNewline);
    }
  }

  lemma {:induction false} TrimRightParts(s: string)
    ensures forall x :: x in Split(TrimRight(s, IsNewline), '\n') ==> x in Split(s, '\n')
  {
    if s != "" && s[|s| - 1] == '\n' {
      TrimRightParts(s[..|s| - 1]);
      assert s == s[..|s| - 1] + ['\n'] + "";
      SplitJoined(s[..|s| - 1], "", '\n');
    }
  }

  lemma {:induction false} JoinIsLfOnly(parts: seq<string>)
    requires forall x :: x in parts ==> OneLine(x)
    ensures LfOnly(Join(parts, '\n'))
  {
    if |parts| > 1 {
      assert parts[0] in parts && forall x :: x in parts[1..] ==> x in parts;
      JoinIsLfOnly(parts[1..]);
    } else if |parts| == 1 {
      assert parts[0] in parts;
    }
  }

  lemma LfOnlyPart(s: string, i: nat, j: nat)
    requires LfOnly(s) && i <= j <= |s|
    ensures LfOnly(s[i..j])
  {
    forall k | 0 <= k < j - i ensures IsLineBreak(s[i..j][k]) ==> s[i..j][k] == '\n' {
      assert s[i..j][k] == s[i + k];
    }
  }

  lemma NormalizeTrims(content: string)
    requires LfOnly(content)
    ensures Normalize(content) == Trim(content, IsNewline) + "\n"
  {
    hide SplitLines, Split, Trim, LfOnly;
    SplitLinesVsSplit(content);
    JoinSplit(content, '\n');
    if content == "" || content[|content| - 1] == '\n' {
      RenderBlank(SplitLines(content));
    } else {
      assert SplitLines(content) + [] == SplitLines(content);
    }
  }

  lemma RenderTrims(buf: seq<string>) returns (t: string)
    requires forall x :: x in buf ==> OneLine(x)
    ensures Render(buf) == t + "\n" && Trimmed(t, IsNewline) && LfOnly(t)
    ensures forall x :: x in Split(t, '\n') ==> x in buf || x == ""
  {
    var s := Join(buf, '\n');
    t := Trim(s, IsNewline);
    TrimIsTrimmed(s, IsNewline);
    JoinIsLfOnly(buf);
    var l := TrimLeft(s, IsNewline);
    LfOnlyPart(s, |s| - |l|, |s|);
    LfOnlyPart(l, 0, |t|);
    TrimLeftParts'(s);
    TrimRightParts(l);
    if buf != [] {
      forall k | 0 <= k < |buf| ensures Without(buf[k], '\n') {
        assert buf[k] in buf;
      }
      SplitJoin(buf, '\n');
    }
  }

  lemma TrimmedPart(s: string)
    requires LfOnly(Trim(s, IsNewline))
    ensures LfOnly(s)
  {
    var l := TrimLeft(s, IsNewline);
    forall i | 0 <= i < |s| ensures IsLineBreak(s[i]) ==> s[i] == '\n' {
      var k := i - Span(s, IsNewline);
      if k >= 0 { assert s[i] == l[k]; }
    }
  }

  /** A content comes back verbatim, up to leading and trailing newlines, exactly
      when its only line break is the newline. */
  lemma {:induction false} VerbatimIff(content: string)
    ensures Normalize(content) == Trim(content, IsNewline) + "\n" <==> LfOnly(content)
  {
    if LfOnly(content) {
      NormalizeTrims(content);
    }
    SplitLinesAreOneLine(content);
    var t := RenderTrims(SplitLines(content));
    if t + "\n" == Trim(content, IsNewline) + "\n" {
      assert t == (t + "\n")[..|t|] && Trim(content, IsNewline) == (Trim(content, IsNewline) + "\n")[..|t|];
      TrimmedPart(content);
    }
  }

  /** Any other break is turned into a newline, for instance a form feed in the
      middle of a line. */
  lemma OtherBreaksAreLost(a: string, b: string, br: char)
    requires a != "" && b != "" && OneLine(a) && OneLine(b) && IsLineBreak(br)
    ensures Normalize(a + [br] + b) == a + "\n" + b + "\n"
  {
    var lines := [a, b];
    SplitLinesStep(a, [br], b);
    SplitLinesOneLine(b);
    assert SplitLines(a + [br] + b) == lines;
    assert lines[1..] == [b];
    assert Join(lines, '\n') == a + ['\n'] + b;
    var s := a + ['\n'] + b;
    assert s[0] == a[0] && s[|s| - 1] == b[|b| - 1];
    TrimFixes(s, IsNewline);
  }

  /** A recorded content is already normal and holds no marker line. */
  lemma {:induction false} RenderIsPrintable(buf: seq<string>, nonce: string)
    requires forall x :: x in buf ==> OneLine(x) && !IsMarker(x, nonce)
    ensures Normalize(Render(buf)) == Render(buf) && MarkerFree(Render(buf), nonce)
  {
    hide SplitLines, Split, Render, IsMarker, OneLine, Trim;
    var t := RenderTrims(buf);
    var content := t + "\n";
    assert LfOnly(content);
    TrimExtra(t, '\n', IsNewline);
    TrimFixes(t, IsNewline);
    hide LfOnly;
    NormalizeTrims(content);
    SplitLinesVsSplit(content);
    SplitJoined(t, "", '\n');
    assert t + ['\n'] + "" == content;
    EmptyLineIsNoMarker(nonce);
    assert Split("", '\n') == [""] by { SplitOfWithout("", '\n'); }
    forall line | line in SplitLines(content) ensures !IsMarker(line, nonce) {
      assert line in Split(content, '\n');
    }
  }

  /** Printed files come back with their contents verbatim, up to leading and
      trailing newlines, exactly when no content has another line break. */
  lemma {:induction false} PrintedVerbatimIff(files: seq<File>, nonce: string)
    requires nonce != "" && OneLine(nonce) && files != []
    requires forall f :: f in files ==> Printable(f, nonce)
    ensures var parsed := Parse(Print(files, nonce), nonce);
            && |parsed| == |files|
            && ((forall k :: 0 <= k < |files| ==> parsed[k].content == Trim(files[k].content, IsNewline) + "\n")
                <==> forall k :: 0 <= k < |files| ==> LfOnly(files[k].content))
  {
    PrintThenParse(files, nonce);
    hide Printable, Print, Parse, Normalize, LfOnly, Trim;
    forall k | 0 <= k < |files|
      ensures AsParsed(files)[k].content == Trim(files[k].content, IsNewline) + "\n" <==> LfOnly(files[k].content)
    {
      VerbatimIff(files[k].content);
    }
  }

  lemma {:induction false} SafePathKeepsWithout(path: string, c: char)
    requires c != '/' && Without(path, c) && SafePath(path).Some?
    ensures Without(SafePath(path).value, c)
  {
    var u := Unquote(path);
    UnquoteKeepsWithout(path, c);
    hide Unquote, Without, Split, Join, TrimLeft;
    var p := ForwardSlashes(u);
    assert Without(p, c) by { SlashesKeepWithout(u, c); }
    var t := TrimLeft(p, IsSlash);
    TrimKeepsWithout(p, IsSlash, c);
    SplitParts(t, '/');
    JoinWithout(DropEmpty(Split(t, '/')), '/', c);
  }

  lemma SlashesKeepWithout(s: string, c: char)
    requires c != '/' && Without(s, c)
    ensures Without(ForwardSlashes(s), c)
  {
  }

  lemma TrimKeepsWithout(s: string, p: char -> bool, c: char)
    requires Without(s, c)
    ensures Without(TrimLeft(s, p), c) && Without(Trim(s, p), c)
  {
  }

  lemma UnquoteKeepsWithout(s: string, c: char)
    requires Without(s, c)
    ensures Without(Unquote(s), c)
  {
    hide Without, Trim;
    TrimKeepsWithout(s, IsSpace, c);
    TrimKeepsWithout(Trim(s, IsSpace), IsDoubleQuote, c);
    TrimKeepsWithout(Trim(Trim(s, IsSpace), IsDoubleQuote), IsSingleQuote, c);
  }

  lemma {:induction false} BeginPathIsOneLine(line: string, nonce: string)
    requires OneLine(line) && MatchBegin(line, nonce).Some?
    ensures OneLine(MatchBegin(line, nonce).value)
    ensures SafePath(MatchBegin(line, nonce).value).Some? ==>
              OneLine(SafePath(MatchBegin(line, nonce).value).value)
  {
    hide SafePath, PathField;
    var path := MatchBegin(line, nonce).value;
    FieldIsSuffix(line, nonce);
    hide MatchBegin;
    if SafePath(path).Some? {
      CleanPathIsOneLine(path);
    }
  }

  lemma FieldIsSuffix(line: string, nonce: string)
    requires PathField(line, nonce).Some?
    ensures |PathField(line, nonce).value| <= |line|
    ensures PathField(line, nonce).value == line[|line| - |PathField(line, nonce).value|..]
  {
    hide PathField, All;
    var eqs, s1, s2, s3 := FieldSound(line, nonce);
    var field := PathField(line, nonce).value;
    var a := eqs + (s1 + ("BEGIN FILE" + (s2 + (("[" + nonce + "]") + (s3 + "path=")))));
    assert line == a + field;
  }

  lemma CleanPathIsOneLine(path: string)
    requires OneLine(path) && SafePath(path).Some?
    ensures OneLine(SafePath(path).value)
  {
    hide SafePath;
    var clean := SafePath(path).value;
    forall i | 0 <= i < |clean| ensures !IsLineBreak(clean[i]) {
      if IsLineBreak(clean[i]) {
        SafePathKeepsWithout(path, clean[i]);
      }
    }
  }

  ghost predicate ScanPrintable(st: Scan, nonce: string) {
    && (st.path.Some? && SafePath(st.path.value).Some? ==> OneLine(SafePath(st.path.value).value))
    && (forall x :: x in st.buf ==> OneLine(x) && !IsMarker(x, nonce))
    && forall f :: f in st.files ==>
         OneLine(f.path) && MarkerFree(f.content, nonce) && Normalize(f.content) == f.content
  }

  lemma {:induction false} FlushPrintable(st: Scan, truncated: bool, nonce: string)
    requires ScanPrintable(st, nonce)
    ensures ScanPrintable(Flush(st, truncated), nonce)
  {
    hide SafePath, Render, MarkerFree, Normalize, IsMarker, OneLine;
    RenderIsPrintable(st.buf, nonce);
  }

  lemma {:induction false} ParsedPrintable(lines: seq<string>, nonce: string)
    requires forall x :: x in lines ==> OneLine(x)
    ensures ScanPrintable(ScanLines(START, lines, nonce), nonce)
  {
    hide SafePath, Render, MarkerFree, Normalize, OneLine, MatchBegin, MatchEnd, Flush;
    if lines != [] {
      var before := lines[..|lines| - 1];
      assert forall x :: x in before ==> x in lines;
      ParsedPrintable(before, nonce);
      var st := ScanLines(START, before, nonce);
      assert lines[|lines| - 1] in lines;
      if MatchBegin(lines[|lines| - 1], nonce).Some? {
        BeginPathIsOneLine(lines[|lines| - 1], nonce);
      }
      FlushPrintable(st, true, nonce);
      FlushPrintable(st, false, nonce);
    }
  }
}
