/** The replies the parser reads, as a grammar: prose without a BEGIN line, then
    blocks.  Every reply is of this form, and the files are read off its blocks. */
module ArtifactGrammar {
  import opened PyText
  import opened Artifacts

  /** A BEGIN line, the lines of the file, and, unless the block was left open,
      its END line with whatever follows up to the next BEGIN line. */
  datatype Block = Block(begin: string, body: seq<string>, end: Option<string>, after: seq<string>)

  ghost predicate NoBegin(lines: seq<string>, nonce: string) {
    forall x :: x in lines ==> MatchBegin(x, nonce).None?
  }

  ghost predicate NoMarker(lines: seq<string>, nonce: string) {
    forall x :: x in lines ==> !IsMarker(x, nonce)
  }

  ghost predicate IsBlock(b: Block, nonce: string) {
    && MatchBegin(b.begin, nonce).Some?
    && NoMarker(b.body, nonce)
    && NoBegin(b.after, nonce)
    && (b.end.None? ==> b.after == [])
    && (b.end.Some? ==> MatchEnd(b.end.value, nonce) && MatchBegin(b.end.value, nonce).None?)
  }

  ghost function EndLines(b: Block): seq<string> {
    if b.end.None? then [] else [b.end.value] + b.after
  }

  ghost function LinesOf(blocks: seq<Block>): seq<string> {
    if blocks == [] then []
    else LinesOf(blocks[..|blocks| - 1])
         + ([blocks[|blocks| - 1].begin] + blocks[|blocks| - 1].body + EndLines(blocks[|blocks| - 1]))
  }

  /** What one block contributes: a file, unless its path is unusable; truncated
      exactly when the block has no END line. */
  ghost function FileOf(b: Block, nonce: string): seq<File>
    requires MatchBegin(b.begin, nonce).Some?
  {
    var path := SafePath(MatchBegin(b.begin, nonce).value);
    if path.None? then [] else [File(path.value, Render(b.body), b.end.None?)]
  }

  ghost predicate AreBlocks(blocks: seq<Block>, nonce: string) {
    forall k :: 0 <= k < |blocks| ==> IsBlock(blocks[k], nonce)
  }

  ghost function FilesOf(blocks: seq<Block>, nonce: string): seq<File>
    requires AreBlocks(blocks, nonce)
  {
    if blocks == [] then []
    else FilesOf(blocks[..|blocks| - 1], nonce) + FileOf(blocks[|blocks| - 1], nonce)
  }

  // ----- scanning a block -----

  lemma {:induction false} ScanOutside(files: seq<File>, lines: seq<string>, nonce: string)
    requires NoBegin(lines, nonce)
    ensures ScanLines(Scan(None, [], files), lines, nonce) == Scan(None, [], files)
  {
    hide MatchBegin, MatchEnd, SafePath, Render;
    if lines != [] {
      var before := lines[..|lines| - 1];
      assert forall x :: x in before ==> x in lines;
      ScanOutside(files, before, nonce);
      assert lines[|lines| - 1] in lines;
    }
  }

  lemma ScanBegin(st: Scan, b: Block, nonce: string)
    requires IsBlock(b, nonce)
    ensures ScanLines(st, [b.begin] + b.body, nonce)
         == Scan(MatchBegin(b.begin, nonce), b.body, Flush(st, true).files)
  {
    hide MatchBegin, MatchEnd, Flush;
    var open := Scan(MatchBegin(b.begin, nonce), [], Flush(st, true).files);
    ScanConcat(st, [b.begin], b.body, nonce);
    ScanOne(st, b.begin, nonce);
    ScanBody(open, b.body, nonce);
    assert [] + b.body == b.body;
  }

  lemma ScanEnd(open: Scan, b: Block, nonce: string)
    requires IsBlock(b, nonce) && b.end.Some? && open.path.Some?
    ensures ScanLines(open, [b.end.value] + b.after, nonce) == Scan(None, [], Flush(open, false).files)
  {
    hide MatchBegin, MatchEnd, SafePath, Render;
    ScanConcat(open, [b.end.value], b.after, nonce);
    ScanOne(open, b.end.value, nonce);
    assert Flush(open, false).path.None? && Flush(open, false).buf == [];
    ScanOutside(Flush(open, false).files, b.after, nonce);
  }

  /** One block closes what was open and, once closed itself, adds its file. */
  lemma {:induction false} ScanOneBlock(st: Scan, b: Block, nonce: string)
    requires IsBlock(b, nonce)
    ensures var end := ScanLines(st, [b.begin] + b.body + EndLines(b), nonce);
            && end.path.Some? == b.end.None?
            && Flush(end, true).files == Flush(st, true).files + FileOf(b, nonce)
  {
    hide MatchBegin, MatchEnd, SafePath, Render;
    ScanBegin(st, b, nonce);
    var open := Scan(MatchBegin(b.begin, nonce), b.body, Flush(st, true).files);
    if b.end.None? {
      assert [b.begin] + b.body + EndLines(b) == [b.begin] + b.body;
    } else {
      ScanConcat(st, [b.begin] + b.body, EndLines(b), nonce);
      ScanEnd(open, b, nonce);
    }
  }

  lemma {:induction false} ScanBlocks(blocks: seq<Block>, nonce: string)
    requires AreBlocks(blocks, nonce)
    ensures Flush(ScanLines(START, LinesOf(blocks), nonce), true).files == FilesOf(blocks, nonce)
  {
    hide IsBlock, MatchBegin, EndLines, FileOf, Flush, ScanLines;
    if blocks == [] {
      ScanNothing(nonce);
    } else {
      var init, b := blocks[..|blocks| - 1], blocks[|blocks| - 1];
      ScanBlocks(init, nonce);
      ScanConcat(START, LinesOf(init), [b.begin] + b.body + EndLines(b), nonce);
      ScanOneBlock(ScanLines(START, LinesOf(init), nonce), b, nonce);
    }
  }

  lemma ScanNothing(nonce: string)
    ensures Flush(ScanLines(START, [], nonce), true).files == []
  {
  }

  /** A reply in the form of the grammar parses to the files of its blocks. */
  lemma {:induction false} ParseOfBlocks(prose: seq<string>, blocks: seq<Block>, nonce: string)
    requires NoBegin(prose, nonce) && AreBlocks(blocks, nonce)
    ensures ParseLines(prose + LinesOf(blocks), nonce) == FilesOf(blocks, nonce)
  {
    hide ScanLines, Flush, LinesOf, FilesOf, IsBlock, MatchBegin;
    ScanConcat(START, prose, LinesOf(blocks), nonce);
    ScanOutside([], prose, nonce);
    ScanBlocks(blocks, nonce);
  }

  // ----- every reply has that form -----

  /** One more line either extends the last block (or the prose) or begins the
      next block. */
  lemma {:induction false} Decompose(lines: seq<string>, nonce: string)
    returns (prose: seq<string>, blocks: seq<Block>)
    ensures NoBegin(prose, nonce) && AreBlocks(blocks, nonce)
    ensures lines == prose + LinesOf(blocks)
  {
    hide MatchBegin, MatchEnd, LinesOf, IsBlock;
    if lines == [] {
      prose, blocks := [], [];
      assert LinesOf([]) == [] by { LinesOfNone(); }
    } else {
      var line := lines[|lines| - 1];
      prose, blocks := Decompose(lines[..|lines| - 1], nonce);
      assert lines == prose + LinesOf(blocks) + [line];
      if MatchBegin(line, nonce).Some? {
        blocks := BeginBlock(prose, blocks, line, nonce);
      } else if blocks == [] {
        LinesOfNone();
        prose := prose + [line];
        assert lines == prose + LinesOf(blocks);
      } else {
        blocks := ExtendLast(prose, blocks, line, nonce);
      }
    }
  }

  lemma LinesOfNone()
    ensures LinesOf([]) == []
  {
  }

  lemma BeginBlock(prose: seq<string>, blocks: seq<Block>, line: string, nonce: string)
    returns (more: seq<Block>)
    requires AreBlocks(blocks, nonce) && MatchBegin(line, nonce).Some?
    ensures AreBlocks(more, nonce)
    ensures prose + LinesOf(blocks) + [line] == prose + LinesOf(more)
  {
    hide MatchBegin, MatchEnd, LinesOf;
    var b := Block(line, [], None, []);
    more := blocks + [b];
    LinesOfSnoc(blocks, b);
    assert [line] + [] + [] == [line];
    assert prose + LinesOf(blocks) + [line] == prose + (LinesOf(blocks) + [line]);
  }

  lemma LinesOfSnoc(blocks: seq<Block>, b: Block)
    ensures LinesOf(blocks + [b]) == LinesOf(blocks) + ([b.begin] + b.body + EndLines(b))
  {
    assert (blocks + [b])[..|blocks|] == blocks;
  }

  lemma {:induction false} ExtendLast(prose: seq<string>, blocks: seq<Block>, line: string, nonce: string)
    returns (more: seq<Block>)
    requires blocks != [] && AreBlocks(blocks, nonce) && MatchBegin(line, nonce).None?
    ensures AreBlocks(more, nonce)
    ensures prose + LinesOf(blocks) + [line] == prose + LinesOf(more)
  {
    hide MatchBegin, MatchEnd, LinesOf;
    var init, b := blocks[..|blocks| - 1], blocks[|blocks| - 1];
    assert blocks == init + [b];
    assert IsBlock(b, nonce);
    var b' := if b.end.Some? then b.(after := b.after + [line])
              else if MatchEnd(line, nonce) then b.(end := Some(line))
              else b.(body := b.body + [line]);
    assert [b.begin] + b.body + EndLines(b) + [line] == [b'.begin] + b'.body + EndLines(b');
    LinesOfSnoc(init, b);
    LinesOfSnoc(init, b');
    more := init + [b'];
    assert LinesOf(blocks) + [line] == LinesOf(more);
    assert prose + LinesOf(blocks) + [line] == prose + (LinesOf(blocks) + [line]);
  }

  /** The whole parser against the grammar: whatever the reply, the files of its
      blocks, or the reply itself as one file when it holds none. */
  lemma {:induction false} ParseIsGrammar(text: string, nonce: string)
    returns (prose: seq<string>, blocks: seq<Block>)
    requires nonce != ""
    ensures NoBegin(prose, nonce) && AreBlocks(blocks, nonce)
    ensures SplitLines(text) == prose + LinesOf(blocks)
    ensures Parse(text, nonce) == (if FilesOf(blocks, nonce) == []
                                   then [File("output.md", text, false)] else FilesOf(blocks, nonce))
  {
    hide SplitLines, LinesOf, FilesOf, ParseLines, IsBlock;
    prose, blocks := Decompose(SplitLines(text), nonce);
    ParseOfBlocks(prose, blocks, nonce);
  }

  /** A reply is taken whole exactly when no BEGIN line of it has a usable path
      (or there is no nonce to look for). */
  lemma {:induction false} TakenWholeIff(text: string, nonce: string)
    ensures nonce == "" || (forall line :: line in SplitLines(text) && MatchBegin(line, nonce).Some? ==>
                              SafePath(MatchBegin(line, nonce).value).None?)
       ==> Parse(text, nonce) == [File("output.md", text, false)]
    ensures nonce != "" && (exists line :: line in SplitLines(text) && MatchBegin(line, nonce).Some?
                              && SafePath(MatchBegin(line, nonce).value).Some?)
       ==> Parse(text, nonce) == ParseLines(SplitLines(text), nonce) != []
  {
    hide SplitLines, MatchBegin, SafePath, Parse, ParseLines;
    if nonce == "" {
      NoNonce(text);
    } else {
      NoFileIff(SplitLines(text), nonce);
      ParseUnfolds(text, nonce);
    }
  }

  lemma NoNonce(text: string)
    ensures Parse(text, "") == [File("output.md", text, false)]
  {
  }

  lemma ParseUnfolds(text: string, nonce: string)
    requires nonce != ""
    ensures var files := ParseLines(SplitLines(text), nonce);
            Parse(text, nonce) == if files == [] then [File("output.md", text, false)] else files
  {
  }

  lemma {:induction false} NoFileIff(lines: seq<string>, nonce: string)
    ensures ParseLines(lines, nonce) == []
       <==> forall line :: line in lines && MatchBegin(line, nonce).Some? ==>
              SafePath(MatchBegin(line, nonce).value).None?
  {
    hide MatchBegin, MatchEnd, SafePath, Render;
    if lines != [] {
      var before, last := lines[..|lines| - 1], lines[|lines| - 1];
      NoFileIff(before, nonce);
      assert lines == before + [last];
      assert forall x :: x in lines <==> x in before || x == last;
    }
  }
}
