/** What parsing a reply that was cut off at any character shares with parsing the
    whole reply, and when printing parsed files and parsing them again changes
    nothing. */
module ArtifactStability {
  import opened PyText
  import opened Artifacts

  // ----- the lines of a cut text -----

  /** The lines of a cut text are the first lines of the text and, unless the cut
      falls between lines, a prefix of the next one. */
  lemma {:induction false} CutLines(text: string, n: nat) returns (m: nat, part: string)
    requires n <= |text|
    ensures m <= |SplitLines(text)|
    ensures SplitLines(text[..n]) == SplitLines(text)[..m] + (if part == "" then [] else [part])
    ensures part != "" ==> m < |SplitLines(text)| && part <= SplitLines(text)[m]
    decreases |text|
  {
    hide SplitLines;
    if Span(text, NotBreak) == |text| {
      m, part := 0, text[..n];
      SplitLinesOneLine(text);
      SplitLinesOneLine(part);
    } else {
      var line, br, tail := FirstBreak(text);
      SplitLinesStep(line, br, tail);
      if n < |line| + |br| {
        m, part := CutFirstLine(line, br, tail, n);
      } else {
        var k := n - |line| - |br|;
        var m', part' := CutLines(tail, k);
        CutLater(line, br, tail, k);
        LinesAfter(line, SplitLines(tail), m', if part' == "" then [] else [part']);
        m, part := m' + 1, part';
      }
    }
  }

  /** A cut in the first line, or inside the two characters of its break. */
  lemma CutFirstLine(line: string, br: string, tail: string, n: nat) returns (m: nat, part: string)
    requires OneLine(line) && IsBreakBefore(br, tail) && n < |line| + |br|
    ensures var lines := [line] + SplitLines(tail);
            && m <= |lines|
            && SplitLines((line + br + tail)[..n]) == lines[..m] + (if part == "" then [] else [part])
            && (part != "" ==> m < |lines| && part <= lines[m])
  {
    hide SplitLines;
    if n <= |line| {
      m, part := 0, line[..n];
      assert (line + br + tail)[..n] == part;
      SplitLinesOneLine(part);
    } else {
      m, part := 1, "";
      assert (line + br + tail)[..n] == line + br[..1] + "";
      SplitLinesStep(line, br[..1], "");
      SplitLinesOneLine("");
    }
  }

  lemma CutLater(line: string, br: string, tail: string, k: nat)
    requires OneLine(line) && IsBreakBefore(br, tail) && k <= |tail|
    ensures SplitLines((line + br + tail)[..|line| + |br| + k]) == [line] + SplitLines(tail[..k])
  {
    assert (line + br + tail)[..|line| + |br| + k] == line + br + tail[..k];
    SplitLinesStep(line, br, tail[..k]);
    hide SplitLines;
  }

  lemma LinesAfter(line: string, lines: seq<string>, m: nat, last: seq<string>)
    requires m <= |lines|
    ensures [line] + (lines[..m] + last) == ([line] + lines)[..m + 1] + last
    ensures m < |lines| ==> ([line] + lines)[m + 1] == lines[m]
  {
  }

  // ----- a marker line and its beginnings -----

  lemma Assoc(a: string, b: string, c: string)
    ensures (a + b) + c == a + (b + c)
  {
  }

  lemma HeadExtends(line: string, more: string, word: string, nonce: string)
    requires MatchHead(line, word, nonce).Some?
    requires word != "" && !IsEquals(word[0]) && !IsSpace(word[0])
    ensures MatchHead(line + more, word, nonce) == Some(MatchHead(line, word, nonce).value + more)
  {
    hide MatchHead, All;
    var rest := MatchHead(line, word, nonce).value;
    var eqs, s1, s2 := HeadSound(line, word, nonce);
    var tag := "[" + nonce + "]";
    var c := tag + rest;
    var b := word + (s2 + c);
    Assoc(tag, rest, more);
    Assoc(s2, c, more);
    Assoc(word, s2 + c, more);
    Assoc(s1, b, more);
    Assoc(eqs, s1 + b, more);
    HeadComplete(line + more, word, nonce, eqs, s1, s2, rest + more);
  }

  lemma AfterPrefixIs(s: string, prefix: string)
    requires AfterPrefix(s, prefix).Some?
    ensures s == prefix + AfterPrefix(s, prefix).value
  {
  }

  lemma SpacesThenPath(s3: string, field: string)
    requires All(s3, IsSpace)
    ensures AfterPrefix(TrimLeft(s3 + ("path=" + field), IsSpace), "path=") == Some(field)
  {
    TrimLeftOf(s3, "path=" + field, IsSpace);
  }

  lemma FieldExtends(line: string, more: string, nonce: string)
    requires PathField(line, nonce).Some?
    ensures PathField(line + more, nonce) == Some(PathField(line, nonce).value + more)
  {
    hide MatchHead, TrimLeft, All, AfterPrefix;
    var rest, field := MatchHead(line, "BEGIN FILE", nonce).value, PathField(line, nonce).value;
    HeadExtends(line, more, "BEGIN FILE", nonce);
    var s3 := TrimLeftParts(rest, IsSpace);
    AfterPrefixIs(TrimLeft(rest, IsSpace), "path=");
    Assoc(s3, "path=" + field, more);
    Assoc("path=", field, more);
    SpacesThenPath(s3, field + more);
  }

  /** Once the beginning of a line is a marker, so is the line. */
  lemma MarkerExtends(part: string, line: string, nonce: string)
    requires part <= line
    ensures MatchBegin(part, nonce).Some? ==> MatchBegin(line, nonce).Some?
    ensures MatchEnd(part, nonce) ==> MatchEnd(line, nonce)
  {
    hide PathField, MatchHead, LazyEnd;
    var more := line[|part|..];
    assert part + more == line;
    if MatchBegin(part, nonce).Some? { FieldExtends(part, more, nonce); }
    if MatchEnd(part, nonce) { HeadExtends(part, more, "END FILE", nonce); }
  }

  lemma EndIsNoBegin(line: string, nonce: string)
    requires MatchEnd(line, nonce)
    ensures MatchBegin(line, nonce).None?
  {
    hide TrimLeft, Span;
    var t := TrimLeft(TrimLeft(line, IsEquals), IsSpace);
    assert "END FILE" <= t && t[0] == 'E';
  }

  // ----- cutting anywhere -----

  /** Scanning the beginning of a line records nothing that scanning the line
      does not record as well. */
  lemma PartRecordsLess(st: Scan, part: string, line: string, nonce: string)
    requires part <= line
    ensures ScanLine(st, part, nonce).files <= ScanLine(st, line, nonce).files
  {
    hide MatchBegin, MatchEnd, SafePath, Render;
    MarkerExtends(part, line, nonce);
    if MatchEnd(part, nonce) { EndIsNoBegin(line, nonce); }
  }

  lemma ScanFirst(st: Scan, lines: seq<string>, nonce: string)
    requires lines != []
    ensures ScanLines(st, lines, nonce) == ScanLines(ScanLine(st, lines[0], nonce), lines[1..], nonce)
  {
    hide ScanLine;
    assert lines == [lines[0]] + lines[1..];
    ScanConcat(st, [lines[0]], lines[1..], nonce);
    ScanOne(st, lines[0], nonce);
  }

  /** What the full parse makes of an open block, given how it goes on. */
  ghost predicate Continues(st: Scan, rest: seq<string>, file: File, ext: seq<string>, nonce: string) {
    && st.path.Some? && SafePath(st.path.value) == Some(file.path)
    && file.content == Render(st.buf + ext)
    && (rest != [] ==> if IsMarker(rest[0], nonce) then ext == [] else ext != [] && ext[0] == rest[0])
  }

  lemma OpenBlockEnds(st: Scan, rest: seq<string>, nonce: string) returns (ext: seq<string>)
    requires st.path.Some? && SafePath(st.path.value).Some?
    ensures var late, k := Flush(ScanLines(st, rest, nonce), true).files, |st.files|;
            k < |late| && Continues(st, rest, late[k], ext, nonce)
  {
    hide MatchBegin, MatchEnd, SafePath, Render, ScanLines;
    if rest == [] {
      ext := [];
      ScanNothing(st, nonce);
      assert st.buf + ext == st.buf;
    } else {
      ScanFirst(st, rest, nonce);
      var next := ScanLine(st, rest[0], nonce);
      if IsMarker(rest[0], nonce) {
        ext := [];
        assert st.buf + ext == st.buf;
        ScanMonotone(next, rest[1..], nonce);
        FlushKeeps(ScanLines(next, rest[1..], nonce));
      } else {
        var more := OpenBlock(next, rest[1..], nonce);
        ext := [rest[0]] + more;
        assert next.buf + more == st.buf + ext;
        FlushKeeps(ScanLines(next, rest[1..], nonce));
      }
    }
  }

  lemma ScanNothing(st: Scan, nonce: string)
    ensures ScanLines(st, [], nonce) == st
  {
  }

  lemma FlushKeeps(st: Scan)
    ensures st.files <= Flush(st, true).files
  {
    hide SafePath, Render;
  }

  /** Cutting the text after any `n` characters: every file that the cut parse
      closed is at its place in the full parse, unchanged, so only a last,
      truncated file can differ.  If the cut falls into a BEGIN line, that file
      is empty and its raw path is the group of the cut line.  Otherwise its path
      is final, and its lines are lines of the final file, except that its last
      line may be cut, or may be the beginning of a marker line. */
  lemma {:induction false} CutAnywhere(text: string, n: nat, nonce: string) returns (m: nat, part: string)
    requires n <= |text|
    ensures m <= |SplitLines(text)| && (part != "" ==> m < |SplitLines(text)| && part <= SplitLines(text)[m])
    ensures var lines, base := SplitLines(text), ScanLines(START, SplitLines(text)[..m], nonce);
            CutFits(ScanLines(START, SplitLines(text[..n]), nonce), ParseLines(lines, nonce), base, part, lines[m..], nonce)
  {
    m, part := CutLines(text, n);
    hide SplitLines, CutFits, ScanLines, ParseLines;
    var lines := SplitLines(text);
    var base := ScanLines(START, lines[..m], nonce);
    ParseGoesOn(lines, m, nonce);
    if part == "" {
      assert lines[..m] + [] == lines[..m];
      CutBetween(base, lines[m..], nonce);
    } else {
      ScanSnoc(lines[..m], part, nonce);
      CutInside(base, part, lines[m..], nonce);
    }
  }

  lemma ParseGoesOn(lines: seq<string>, m: nat, nonce: string)
    requires m <= |lines|
    ensures ParseLines(lines, nonce)
         == Flush(ScanLines(ScanLines(START, lines[..m], nonce), lines[m..], nonce), true).files
  {
    assert lines[..m] + lines[m..] == lines;
    ScanConcat(START, lines[..m], lines[m..], nonce);
    hide ScanLines, Flush;
  }

  lemma ScanSnoc(lines: seq<string>, last: string, nonce: string)
    ensures ScanLines(START, lines + [last], nonce) == ScanLine(ScanLines(START, lines, nonce), last, nonce)
  {
    ScanConcat(START, lines, [last], nonce);
    ScanOne(ScanLines(START, lines, nonce), last, nonce);
    hide ScanLines, ScanLine;
  }

  /** A cut scan against the files of the full parse, which goes on from `base`
      with the lines `rest`; the parse of the cut text is the flushed cut scan. */
  ghost predicate CutFits(cut: Scan, late: seq<File>, base: Scan, part: string, rest: seq<string>, nonce: string) {
    var early, k := Flush(cut, true).files, |cut.files|;
    && k <= |early| <= k + 1 && cut.files == early[..k] && cut.files <= late
    && (|early| == k + 1 ==>
          && early[k].truncated && cut.path.Some? && SafePath(cut.path.value) == Some(early[k].path)
          && if part != "" && MatchBegin(part, nonce).Some? then
               cut.path == MatchBegin(part, nonce) && early[k].content == Render([])
             else
               && k < |late| && late[k].path == early[k].path
               && early[k].content == Render(base.buf + (if part == "" then [] else [part]))
               && exists ext :: Continues(base, rest, late[k], ext, nonce))
  }

  lemma CutBetween(base: Scan, rest: seq<string>, nonce: string)
    ensures CutFits(base, Flush(ScanLines(base, rest, nonce), true).files, base, "", rest, nonce)
  {
    hide ScanLines, Render, MatchBegin, MatchEnd, IsMarker, SafePath, Continues;
    ScanMonotone(base, rest, nonce);
    FlushKeeps(ScanLines(base, rest, nonce));
    assert base.buf + [] == base.buf;
    if base.path.Some? && SafePath(base.path.value).Some? {
      var ext := OpenBlockEnds(base, rest, nonce);
      SamePath(base, rest, Flush(ScanLines(base, rest, nonce), true).files[|base.files|], ext, nonce);
    }
  }

  lemma SamePath(st: Scan, rest: seq<string>, file: File, ext: seq<string>, nonce: string)
    requires Continues(st, rest, file, ext, nonce)
    ensures st.path.Some? && SafePath(st.path.value) == Some(file.path)
  {
    hide SafePath;
  }

  lemma CutInside(base: Scan, part: string, rest: seq<string>, nonce: string)
    requires rest != [] && part != "" && part <= rest[0]
    ensures CutFits(ScanLine(base, part, nonce), Flush(ScanLines(base, rest, nonce), true).files,
                    base, part, rest, nonce)
  {
    hide ScanLines, Render, MatchBegin, MatchEnd, IsMarker, SafePath, Continues;
    var cut := ScanLine(base, part, nonce);
    PartRecordsLess(base, part, rest[0], nonce);
    ScanFirst(base, rest, nonce);
    ScanMonotone(ScanLine(base, rest[0], nonce), rest[1..], nonce);
    FlushKeeps(ScanLines(base, rest, nonce));
    if cut.path.Some? && MatchBegin(part, nonce).None? && SafePath(cut.path.value).Some? {
      assert cut == Scan(base.path, base.buf + [part], base.files);
      var ext := OpenBlockEnds(base, rest, nonce);
      SamePath(base, rest, Flush(ScanLines(base, rest, nonce), true).files[|base.files|], ext, nonce);
    }
  }

  // ----- printing parsed files again -----

  /** Whatever was parsed, no recorded content holds a marker line, every one is
      its own normal form, and every path is one line. */
  lemma ParsedIsMarkerFree(text: string, nonce: string)
    ensures forall f :: f in ParseLines(SplitLines(text), nonce) ==>
              OneLine(f.path) && MarkerFree(f.content, nonce) && Normalize(f.content) == f.content
  {
    hide SplitLines, MarkerFree, Normalize, OneLine, Flush;
    SplitLinesAreOneLine(text);
    ParsedPrintable(SplitLines(text), nonce);
    FlushPrintable(ScanLines(START, SplitLines(text), nonce), true, nonce);
  }

  lemma ParsedPathsAreClean(lines: seq<string>, nonce: string)
    ensures forall f :: f in ParseLines(lines, nonce) ==> f.path != ""
  {
    ScanPathsAreClean(lines, nonce);
    FlushPathIsClean(ScanLines(START, lines, nonce), true);
    hide ScanLines, Flush;
  }

  lemma FlushPathIsClean(st: Scan, truncated: bool)
    requires forall f :: f in st.files ==> f.path != ""
    ensures forall f :: f in Flush(st, truncated).files ==> f.path != ""
  {
    if st.path.Some? && SafePath(st.path.value).Some? {
      SafePathConfines(st.path.value);
    }
    hide SafePath, Render;
  }

  lemma {:induction false} ScanPathsAreClean(lines: seq<string>, nonce: string)
    ensures forall f :: f in ScanLines(START, lines, nonce).files ==> f.path != ""
  {
    hide Flush, MatchBegin, MatchEnd;
    if lines != [] {
      var st := ScanLines(START, lines[..|lines| - 1], nonce);
      ScanPathsAreClean(lines[..|lines| - 1], nonce);
      FlushPathIsClean(st, true);
      FlushPathIsClean(st, false);
    }
  }

  /** The raw path that a printed BEGIN line gives back. */
  lemma PrintedPath(path: string, nonce: string) returns (q: string)
    requires path != ""
    ensures MatchBegin(BeginMarker(path, nonce), nonce) == Some(q) && q <= path
  {
    hide PathField, IsTail, BeginMarker;
    BeginMarkerField(path, nonce);
    var field := path + " =====";
    LazyEndIsFirst(field, 1);
    TailOf(" ", "=====", "");
    assert field[|path|..] == " " + "=====" + "";
    q := field[..LazyEnd(field, 1)];
    assert LazyEnd(field, 1) <= |path|;
    assert q == path[..|q|];
  }

  /** What parsing makes of one printed file: nothing, if its path is refused. */
  function Reparsed(f: File, nonce: string): (r: seq<File>)
    ensures |r| <= 1
  {
    match MatchBegin(BeginMarker(f.path, nonce), nonce)
    case None => []
    case Some(q) => if SafePath(q).None? then [] else [File(SafePath(q).value, Normalize(f.content), false)]
  }

  function ReparsedAll(files: seq<File>, nonce: string): seq<File> {
    if files == [] then [] else Reparsed(files[0], nonce) + ReparsedAll(files[1..], nonce)
  }

  /** A printed file comes back under its own path exactly when that is canonical. */
  lemma {:induction false} SamePathIff(f: File, nonce: string)
    requires f.path != "" && Normalize(f.content) == f.content
    ensures Reparsed(f, nonce) == [f.(truncated := false)] <==> Canonical(f.path)
  {
    hide MatchBegin, BeginMarker, SafePath, Canonical, Normalize;
    var q := PrintedPath(f.path, nonce);
    SafePathFixesCanonical(f.path);
    if Canonical(f.path) {
      CanonicalEnds(f.path);
      BeginMarkerRecovered(f.path, nonce);
    }
    if SafePath(q) == Some(f.path) {
      SafePathIsNoLonger(q);
      assert q == f.path;
    }
    assert Reparsed(f, nonce) == if SafePath(q).None? then [] else [File(SafePath(q).value, f.content, false)];
  }

  lemma SafePathIsNoLonger(path: string)
    requires SafePath(path).Some?
    ensures |SafePath(path).value| <= |path|
  {
    SafePathShortens(path);
    hide SafePath;
    TrimIsNoLonger(path, IsSpace);
    TrimIsNoLonger(Trim(path, IsSpace), IsDoubleQuote);
    TrimIsNoLonger(Trim(Trim(path, IsSpace), IsDoubleQuote), IsSingleQuote);
  }

  lemma TrimIsNoLonger(s: string, p: char -> bool)
    ensures |Trim(s, p)| <= |s|
  {
  }

  lemma ScanAnyBlock(st: Scan, f: File, body: seq<string>, nonce: string)
    requires st.path.None? && st.buf == [] && f.path != "" && MarkerFree(f.content, nonce)
    requires body == SplitLines(f.content) || body == SplitLines(f.content) + [""]
    ensures ScanLines(st, [BeginMarker(f.path, nonce)] + body + [EndMarker(f.path, nonce)], nonce)
         == Scan(None, [], st.files + Reparsed(f, nonce))
  {
    hide SplitLines, ScanLines, MatchBegin, MatchEnd, SafePath, BeginMarker, EndMarker, Render;
    var b, e := BeginMarker(f.path, nonce), EndMarker(f.path, nonce);
    var q := PrintedPath(f.path, nonce);
    var open := Scan(Some(q), [], st.files);
    ScanConcat(st, [b] + body, [e], nonce);
    ScanConcat(st, [b], body, nonce);
    ScanOne(st, b, nonce);
    assert ScanLines(st, [b], nonce) == open;
    EmptyLineIsNoMarker(nonce);
    ScanBody(open, body, nonce);
    assert [] + body == body;
    ScanOne(open.(buf := body), e, nonce);
    EndMarkerRecognised(f.path, nonce);
    RenderBlank(SplitLines(f.content));
    assert st.files + [] == st.files;
  }

  ghost predicate Reprintable(f: File, nonce: string) {
    f.path != "" && OneLine(f.path) && MarkerFree(f.content, nonce) && Normalize(f.content) == f.content
  }

  /** Scanning one printed file, and what follows it. */
  lemma ScanPrintedFile(st: Scan, f: File, more: string, nonce: string)
    requires st.path.None? && st.buf == [] && OneLine(nonce) && Reprintable(f, nonce)
    ensures ScanLines(st, SplitLines(Block(f, nonce) + more), nonce)
         == ScanLines(Scan(None, [], st.files + Reparsed(f, nonce)), SplitLines(more), nonce)
  {
    hide SplitLines, Block, Normalize, OneLine, MarkerFree, ScanLine, ScanLines, Reparsed, BeginMarker, EndMarker;
    var body := BlockLines(f, more, nonce);
    var block := [BeginMarker(f.path, nonce)] + body + [EndMarker(f.path, nonce)];
    ScanAnyBlock(st, f, body, nonce);
    ScanConcat(st, block, SplitLines(more), nonce);
  }

  lemma PrintedFirst(files: seq<File>, nonce: string)
    requires files != []
    ensures Print(files, nonce) == Block(files[0], nonce) + Print(files[1..], nonce)
    ensures ReparsedAll(files, nonce) == Reparsed(files[0], nonce) + ReparsedAll(files[1..], nonce)
  {
    hide Block, Reparsed;
  }

  lemma PrintedNothing(st: Scan, nonce: string)
    ensures ScanLines(st, SplitLines(Print([], nonce)), nonce) == st && ReparsedAll([], nonce) == []
  {
    SplitLinesOneLine("");
    hide SplitLines, ScanLine;
  }

  lemma {:induction false} ScanReprinted(st: Scan, files: seq<File>, nonce: string)
    requires st.path.None? && st.buf == [] && OneLine(nonce)
    requires forall f :: f in files ==> Reprintable(f, nonce)
    ensures ScanLines(st, SplitLines(Print(files, nonce)), nonce)
         == Scan(None, [], st.files + ReparsedAll(files, nonce))
    decreases |files|
  {
    hide SplitLines, Print, Block, OneLine, ScanLines, Reparsed, ReparsedAll, Reprintable;
    if files == [] {
      PrintedNothing(st, nonce);
      assert st.files + [] == st.files;
    } else {
      var f, rest := files[0], files[1..];
      assert f in files && forall g :: g in rest ==> g in files;
      var next := Scan(None, [], st.files + Reparsed(f, nonce));
      PrintedFirst(files, nonce);
      ScanPrintedFile(st, f, Print(rest, nonce), nonce);
      ScanReprinted(next, rest, nonce);
      assert st.files + (Reparsed(f, nonce) + ReparsedAll(rest, nonce)) == next.files + ReparsedAll(rest, nonce);
    }
  }

  function Untruncated(files: seq<File>): seq<File> {
    seq(|files|, k requires 0 <= k < |files| => files[k].(truncated := false))
  }

  lemma {:induction false} ReparsedLength(files: seq<File>, nonce: string)
    ensures |ReparsedAll(files, nonce)| <= |files|
  {
    hide Reparsed;
    if files != [] {
      ReparsedLength(files[1..], nonce);
    }
  }

  lemma {:induction false} AllSameIff(files: seq<File>, nonce: string)
    requires forall f :: f in files ==> Reprintable(f, nonce)
    ensures ReparsedAll(files, nonce) == Untruncated(files) <==> forall f :: f in files ==> Canonical(f.path)
  {
    hide Canonical, OneLine, MarkerFree, Normalize, Reparsed;
    if files != [] {
      var f, rest := files[0], files[1..];
      assert files == [f] + rest && f in files && forall g :: g in rest ==> g in files;
      AllSameIff(rest, nonce);
      SamePathIff(f, nonce);
      ReparsedLength(rest, nonce);
      HeadAndTail(Reparsed(f, nonce), ReparsedAll(rest, nonce), f.(truncated := false), Untruncated(rest));
      assert Untruncated(files) == [f.(truncated := false)] + Untruncated(rest);
      hide Untruncated, ReparsedAll;
      assert (forall g :: g in files ==> Canonical(g.path)) <==>
             Canonical(f.path) && forall g :: g in rest ==> Canonical(g.path);
    }
  }

  lemma HeadAndTail(a: seq<File>, b: seq<File>, x: File, c: seq<File>)
    requires |a| <= 1 && |b| <= |c|
    ensures a + b == [x] + c <==> a == [x] && b == c
  {
    if a + b == [x] + c {
      assert |a + b| == |[x] + c|;
      assert b == (a + b)[1..] == ([x] + c)[1..] == c;
      assert (a + b)[0] == x;
    }
  }

  /** Printing parsed files and parsing the print changes nothing but the
      truncated flags exactly when every parsed path is canonical. */
  lemma {:induction false} ReparseIsFixedPointIff(text: string, nonce: string)
    requires nonce != "" && OneLine(nonce) && ParseLines(SplitLines(text), nonce) != []
    ensures var files := ParseLines(SplitLines(text), nonce);
            Parse(Print(files, nonce), nonce) == Untruncated(files) <==> forall f :: f in files ==> Canonical(f.path)
  {
    var files := ParseLines(SplitLines(text), nonce);
    ParsedIsMarkerFree(text, nonce);
    ParsedPathsAreClean(SplitLines(text), nonce);
    hide SplitLines, MarkerFree, Normalize, OneLine, Canonical, Reparsed, ReparsedAll, ParseLines, Print;
    AllSameIff(files, nonce);
    ReprintIsParsed(files, nonce);
    hide Parse;
    if ReparsedAll(files, nonce) == [] {
      FallbackDiffers(files, nonce);
    }
  }

  lemma ReprintIsParsed(files: seq<File>, nonce: string)
    requires nonce != "" && OneLine(nonce) && forall f :: f in files ==> Reprintable(f, nonce)
    ensures var again := ReparsedAll(files, nonce);
            Parse(Print(files, nonce), nonce) == if again == [] then Fallback(Print(files, nonce)) else again
  {
    ScanReprinted(START, files, nonce);
    hide SplitLines, Print, ScanLines, ReparsedAll;
    assert [] + ReparsedAll(files, nonce) == ReparsedAll(files, nonce);
  }

  lemma FallbackDiffers(files: seq<File>, nonce: string)
    requires files != []
    ensures Fallback(Print(files, nonce)) != Untruncated(files)
  {
    assert |Print(files, nonce)| > |files[0].content|;
    assert Fallback(Print(files, nonce))[0].content == Print(files, nonce);
    assert Untruncated(files)[0].content == files[0].content;
  }
}
