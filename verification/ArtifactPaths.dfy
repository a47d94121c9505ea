/** What path cleaning does to every path, not only to the canonical ones: which
    segments stay, when nothing usable is left, and which spellings are the same. */
module ArtifactPaths {
  import opened PyText
  import opened Artifacts

  /** Everything between two slashes of the unquoted path, dropped or not. */
  ghost function Segments(path: string): seq<string> {
    Split(ForwardSlashes(Unquote(path)), '/')
  }

  // ----- dropping segments -----

  lemma {:induction false} DropEmptyAppend(a: seq<string>, b: seq<string>)
    ensures DropEmpty(a + b) == DropEmpty(a) + DropEmpty(b)
  {
    if a == [] {
      assert a + b == b;
    } else {
      assert (a + b)[1..] == a[1..] + b;
      DropEmptyAppend(a[1..], b);
    }
  }

  /** Each segment is dropped or kept on its own, whatever stands around it. */
  lemma {:induction false} DropEmptyAt(parts: seq<string>, k: nat)
    requires k < |parts|
    ensures var x := parts[k];
            DropEmpty(parts) == DropEmpty(parts[..k])
                                + (if x == "" || x == "." then [] else [x])
                                + DropEmpty(parts[k + 1..])
  {
    var one := [parts[k]];
    assert parts == parts[..k] + one + parts[k + 1..];
    DropEmptyAppend(parts[..k] + one, parts[k + 1..]);
    DropEmptyAppend(parts[..k], one);
    assert one[1..] == [];
  }

  lemma {:induction false} DropEmptyHas(parts: seq<string>, x: string)
    ensures x in DropEmpty(parts) <==> x in parts && x != "" && x != "."
  {
    if parts != [] {
      DropEmptyHas(parts[1..], x);
      assert parts == [parts[0]] + parts[1..];
    }
  }

  lemma {:induction false} DropEmptyNone(parts: seq<string>)
    ensures DropEmpty(parts) == [] <==> forall x :: x in parts ==> x == "" || x == "."
  {
    forall x ensures x in DropEmpty(parts) <==> x in parts && x != "" && x != "." {
      DropEmptyHas(parts, x);
    }
    if DropEmpty(parts) != [] {
      assert DropEmpty(parts)[0] in DropEmpty(parts);
    }
  }

  lemma {:induction false} LeadingSlashesAreEmpty(s: string)
    ensures DropEmpty(Split(TrimLeft(s, IsSlash), '/')) == DropEmpty(Split(s, '/'))
  {
    if s != "" && s[0] == '/' {
      LeadingSlashesAreEmpty(s[1..]);
      assert TrimLeft(s, IsSlash) == TrimLeft(s[1..], IsSlash);
      assert ([""] + Split(s[1..], '/'))[1..] == Split(s[1..], '/');
    } else {
      assert TrimLeft(s, IsSlash) == s;
    }
  }

  lemma {:induction false} KeptSplit(s: string)
    ensures var kept := DropEmpty(Split(s, '/'));
            && (kept == [] <==> Join(kept, '/') == "")
            && (kept != [] ==> Split(Join(kept, '/'), '/') == kept)
  {
    var kept := DropEmpty(Split(s, '/'));
    SplitParts(s, '/');
    if kept != [] {
      assert kept[0] in kept;
      SplitJoin(kept, '/');
      SplitOfWithout("", '/');
    }
  }

  /** The cleaned path is a function of the kept segments. */
  lemma {:induction false} SafePathOf(path: string)
    ensures var kept := DropEmpty(Segments(path));
            && SafePath(path) == (if ".." in kept || kept == [] then None else Some(Join(kept, '/')))
            && (kept != [] ==> Split(Join(kept, '/'), '/') == kept)
  {
    var p := ForwardSlashes(Unquote(path));
    hide Unquote, ForwardSlashes, TrimLeft;
    var parts := Split(TrimLeft(p, IsSlash), '/');
    LeadingSlashesAreEmpty(p);
    KeptSplit(TrimLeft(p, IsSlash));
    if p == "" {
      assert Split(p, '/') == [""];
      assert [""][1..] == [];
    }
  }

  /** A path is refused exactly when one of its segments is ".." or none but
      empty and "." ones is left. */
  lemma {:induction false} RefusedIff(path: string)
    ensures SafePath(path).None?
       <==> ".." in Segments(path) || forall x :: x in Segments(path) ==> x == "" || x == "."
  {
    hide Segments, SafePath;
    SafePathOf(path);
    DropEmptyHas(Segments(path), "..");
    DropEmptyNone(Segments(path));
  }

  /** Otherwise its segments are all the others, in order: leaving out any one of
      the empty and "." segments gives the same path, and every other segment
      stays between what is kept before it and after it. */
  lemma {:induction false} CleanedSegments(path: string, k: nat)
    requires SafePath(path).Some? && k < |Segments(path)|
    ensures var segs := Segments(path);
            var clean := Split(SafePath(path).value, '/');
            && clean == DropEmpty(segs)
            && (segs[k] == "" || segs[k] == "." ==> clean == DropEmpty(segs[..k] + segs[k + 1..]))
            && (segs[k] != "" && segs[k] != "." ==>
                  var before := DropEmpty(segs[..k]);
                  |before| < |clean| && clean[|before|] == segs[k]
                  && clean == before + [segs[k]] + DropEmpty(segs[k + 1..]))
  {
    hide Segments, SafePath, Split, DropEmpty;
    SafePathOf(path);
    var segs := Segments(path);
    DropEmptyAt(segs, k);
    DropEmptyAppend(segs[..k], segs[k + 1..]);
    var before, after := DropEmpty(segs[..k]), DropEmpty(segs[k + 1..]);
    assert before + [] + after == before + after;
  }

  // ----- unquoting -----

  predicate IsPlain(c: char) { !IsSpace(c) && c != '\"' && c != '\'' }

  ghost function UnquotedLeft(a: string): string {
    TrimLeft(TrimLeft(TrimLeft(a, IsSpace), IsDoubleQuote), IsSingleQuote)
  }

  ghost function UnquotedRight(b: string): string {
    TrimRight(TrimRight(TrimRight(b, IsSpace), IsDoubleQuote), IsSingleQuote)
  }

  lemma UnquoteMiddle(a: string, m: string, b: string)
    requires m != "" && IsPlain(m[0]) && IsPlain(m[|m| - 1])
    ensures Unquote(a + m + b) == UnquotedLeft(a) + m + UnquotedRight(b)
  {
    hide Trim, TrimLeft, TrimRight;
    TrimMiddle(a, m, b, IsSpace);
    var a1, b1 := TrimLeft(a, IsSpace), TrimRight(b, IsSpace);
    TrimMiddle(a1, m, b1, IsDoubleQuote);
    TrimMiddle(TrimLeft(a1, IsDoubleQuote), m, TrimRight(b1, IsDoubleQuote), IsSingleQuote);
  }

  lemma SlashesAppend(a: string, b: string)
    ensures ForwardSlashes(a + b) == ForwardSlashes(a) + ForwardSlashes(b)
  {
  }

  lemma SlashesMiddle(a: string, m: string, b: string)
    requires Without(m, '\\')
    ensures ForwardSlashes(a + m + b) == ForwardSlashes(a) + m + ForwardSlashes(b)
  {
    assert ForwardSlashes(m) == m;
    SlashesAppend(a + m, b);
    SlashesAppend(a, m);
  }

  lemma SegmentsMiddle(a: string, m: string, b: string)
    requires m != "" && IsPlain(m[0]) && IsPlain(m[|m| - 1]) && Without(m, '\\')
    ensures Segments(a + m + b)
         == Split(ForwardSlashes(UnquotedLeft(a)) + m + ForwardSlashes(UnquotedRight(b)), '/')
  {
    hide Unquote, ForwardSlashes, Split, UnquotedLeft, UnquotedRight;
    UnquoteMiddle(a, m, b);
    SlashesMiddle(UnquotedLeft(a), m, UnquotedRight(b));
  }

  lemma {:induction false} DropEmptyBetween(a: seq<string>, x: string, b: seq<string>)
    requires x == "" || x == "."
    ensures DropEmpty(a + [x] + b) == DropEmpty(a + b)
  {
    DropEmptyAppend(a + [x], b);
    DropEmptyAppend(a, [x]);
    DropEmptyAppend(a, b);
    assert [x][1..] == [];
    assert DropEmpty([x]) == [];
  }

  /** A slash more, or a "." segment more, changes nothing, wherever it stands. */
  lemma {:induction false} ExtraSegmentIsDropped(a: string, b: string)
    ensures SafePath(a + "//" + b) == SafePath(a + "/" + b)
    ensures SafePath(a + "/./" + b) == SafePath(a + "/" + b)
  {
    hide SafePath, Segments, Split, DropEmpty, ForwardSlashes, UnquotedLeft, UnquotedRight;
    var l, r := ForwardSlashes(UnquotedLeft(a)), ForwardSlashes(UnquotedRight(b));
    SegmentsMiddle(a, "/", b);
    SegmentsMiddle(a, "//", b);
    SegmentsMiddle(a, "/./", b);
    SplitJoined(l, r, '/');
    forall x | x == "" || x == "." ensures DropEmpty(Split(l + ("/" + x + "/") + r, '/')) == DropEmpty(Split(l + "/" + r, '/')) {
      SplitThree(l, x, r);
      DropEmptyBetween(Split(l, '/'), x, Split(r, '/'));
    }
    assert "/" + "" + "/" == "//" && "/" + "." + "/" == "/./";
    SafePathOf(a + "/" + b);
    SafePathOf(a + "//" + b);
    SafePathOf(a + "/./" + b);
  }

  lemma SplitThree(l: string, x: string, r: string)
    requires Without(x, '/')
    ensures Split(l + ("/" + x + "/") + r, '/') == Split(l, '/') + [x] + Split(r, '/')
  {
    hide Split;
    assert l + ("/" + x + "/") + r == l + ['/'] + (x + ['/'] + r);
    SplitJoined(l, x + ['/'] + r, '/');
    SplitJoined(x, r, '/');
    SplitOfWithout(x, '/');
    assert Split(l, '/') + ([x] + Split(r, '/')) == Split(l, '/') + [x] + Split(r, '/');
  }

  /** A backslash separates segments as a slash does. */
  lemma BackslashIsSlash(a: string, b: string)
    ensures SafePath(a + "\\" + b) == SafePath(a + "/" + b)
  {
    var l, r := UnquotedLeft(a), UnquotedRight(b);
    UnquoteMiddle(a, "\\", b);
    UnquoteMiddle(a, "/", b);
    SlashesEqual(l, r);
    hide Unquote, UnquotedLeft, UnquotedRight, SafePath, ForwardSlashes, Split, DropEmpty;
    SafePathOf(a + "\\" + b);
    SafePathOf(a + "/" + b);
  }

  lemma SlashesEqual(l: string, r: string)
    ensures ForwardSlashes(l + "\\" + r) == ForwardSlashes(l + "/" + r)
  {
    assert ForwardSlashes("\\") == "/" && ForwardSlashes("/") == "/";
    SlashesAppend(l + "\\", r);
    SlashesAppend(l, "\\");
    SlashesAppend(l + "/", r);
    SlashesAppend(l, "/");
  }

  /** The quotes a model may put around a path: spaces outside double quotes
      outside single quotes, as the three strips run in this order. */
  lemma UnquoteOf(s: string, d: string, q: string, p: string, q': string, d': string, s': string)
    requires All(s, IsSpace) && All(d, IsDoubleQuote) && All(q, IsSingleQuote)
    requires All(s', IsSpace) && All(d', IsDoubleQuote) && All(q', IsSingleQuote)
    requires p != "" && Trimmed(p, IsSpace) && Trimmed(p, IsDoubleQuote) && Trimmed(p, IsSingleQuote)
    ensures Unquote(s + (d + (q + p + q') + d') + s') == p
  {
    hide Trim;
    var inner := q + p + q';
    var quoted := d + inner + d';
    assert inner[0] == (if q == "" then p[0] else '\'')
        && inner[|inner| - 1] == if q' == "" then p[|p| - 1] else '\'';
    assert quoted[0] == (if d == "" then inner[0] else '\"')
        && quoted[|quoted| - 1] == if d' == "" then inner[|inner| - 1] else '\"';
    TrimOf(s, quoted, s', IsSpace);
    TrimOf(d, inner, d', IsDoubleQuote);
    TrimOf(q, p, q', IsSingleQuote);
  }

  /** Every usual spelling of a canonical path is cleaned to that path. */
  lemma {:induction false} SpellingsOfCanonical(p: string, s: string, d: string, q: string)
    requires Canonical(p) && All(s, IsSpace) && All(d, IsDoubleQuote) && All(q, IsSingleQuote)
    ensures SafePath(s + (d + (q + p + q) + d) + s) == Some(p)
    ensures SafePath("/" + p) == Some(p) && SafePath("./" + p) == Some(p)
    ensures SafePath(p + "/") == Some(p)
  {
    hide SafePath, Canonical;
    QuotedCanonical(p, s, d, q);
    SurroundedCanonical("/", p, "");
    SurroundedCanonical("./", p, "");
    SurroundedCanonical("", p, "/");
    assert "" + p + "/" == p + "/" && "/" + p + "" == "/" + p && "./" + p + "" == "./" + p;
  }

  lemma QuotedCanonical(p: string, s: string, d: string, q: string)
    requires Canonical(p) && All(s, IsSpace) && All(d, IsDoubleQuote) && All(q, IsSingleQuote)
    ensures SafePath(s + (d + (q + p + q) + d) + s) == Some(p)
  {
    UnquoteOf(s, d, q, p, q, d, s) by { assert p != ""; }
    UnquotedCanonical(p);
    CanonicalIsFixed(p);
    hide SafePath, Unquote, Canonical;
    SafePathOf(s + (d + (q + p + q) + d) + s);
    SafePathOf(p);
  }

  lemma UnquotedCanonical(p: string)
    requires Canonical(p)
    ensures Unquote(p) == p
  {
    TrimFixes(p, IsSpace);
    TrimFixes(p, IsDoubleQuote);
    TrimFixes(p, IsSingleQuote);
  }

  lemma {:induction false} SurroundedCanonical(a: string, p: string, b: string)
    requires Canonical(p)
    requires (a == "" && b == "/") || (b == "" && (a == "/" || a == "./"))
    ensures SafePath(a + p + b) == Some(p)
  {
    var t := a + p + b;
    SegmentsAsWritten(p);
    CanonicalIsFixed(p);
    SurroundedAsWritten(a, p, b);
    KeptSurrounded(a, p, b);
    hide Split, DropEmpty, SafePath, Segments, Canonical;
    SafePathOf(p);
    SafePathOf(t);
  }

  lemma {:induction false} KeptSurrounded(a: string, p: string, b: string)
    requires (a == "" && b == "/") || (b == "" && (a == "/" || a == "./"))
    ensures DropEmpty(Split(a + p + b, '/')) == DropEmpty(Split(p, '/'))
  {
    hide Split, DropEmpty;
    var segs := Split(p, '/');
    if b == "/" {
      assert a + p + b == p + ['/'] + "";
      SplitJoined(p, "", '/');
      SplitOfWithout("", '/');
      assert segs + [""] == segs + [""] + [] && segs + [] == segs;
      DropEmptyBetween(segs, "", []);
    } else {
      var x := if a == "/" then "" else ".";
      assert a + p + b == x + ['/'] + p;
      SplitJoined(x, p, '/');
      SplitOfWithout(x, '/');
      assert [x] + segs == [] + [x] + segs && [] + segs == segs;
      DropEmptyBetween([], x, segs);
    }
  }

  lemma SegmentsAsWritten(p: string)
    requires Canonical(p)
    ensures Segments(p) == Split(p, '/')
  {
    UnquotedCanonical(p);
    hide Unquote;
    assert ForwardSlashes(p) == p;
  }

  lemma SurroundedAsWritten(a: string, p: string, b: string)
    requires Canonical(p)
    requires (a == "" && b == "/") || (b == "" && (a == "/" || a == "./"))
    ensures Segments(a + p + b) == Split(a + p + b, '/')
  {
    var t := a + p + b;
    assert Without(t, '\\');
    assert IsPlain(t[0]) && IsPlain(t[|t| - 1]) by {
      assert t[0] == if a == "" then p[0] else a[0];
      assert t[|t| - 1] == if b == "" then p[|p| - 1] else b[0];
    }
    hide Canonical;
    PlainIsUnquoted(t);
    hide Unquote;
    assert ForwardSlashes(t) == t;
  }

  lemma PlainIsUnquoted(t: string)
    requires t != "" && IsPlain(t[0]) && IsPlain(t[|t| - 1])
    ensures Unquote(t) == t
  {
    TrimFixes(t, IsSpace);
    TrimFixes(t, IsDoubleQuote);
    TrimFixes(t, IsSingleQuote);
  }
}
