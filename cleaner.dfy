/**
  The string tail of clean_html_content (services.py:308-311): the text that
  the HTML parser extracted is cut into lines, each line is stripped and cut at
  every double space, each piece is stripped, and the non-empty pieces are
  joined with one space.
 */
module Cleaner {
  import opened Options
  import opened PyStrings

  /** The line boundaries of `str.splitlines`; every one of them is also whitespace. */
  predicate IsLineBreak(c: char) {
    || c == '\n' || c == '\r' || c == '\U{0B}' || c == '\U{0C}'
    || ('\U{1C}' <= c <= '\U{1E}')
    || c == '\U{85}' || c == '\U{2028}' || c == '\U{2029}'
  }

  predicate NoBreak(s: string) {
    forall i :: 0 <= i < |s| ==> !IsLineBreak(s[i])
  }

  /** `sep` occurs nowhere in `s`. */
  predicate Free(s: string, sep: string) {
    forall j :: 0 <= j < |s| ==> !OccursAt(s, sep, j)
  }

  const DoubleSpace := "  "

  /** What clean_html_content returns: one line, no double space, no whitespace at either end. */
  predicate Collapsed(s: string) {
    NoBreak(s) && Free(s, DoubleSpace) && Stripped(s)
  }

  /** Index of the first line boundary, or `|s|`. */
  function IndexOfBreak(s: string): (k: nat)
    ensures k <= |s| && NoBreak(s[..k])
    ensures k < |s| ==> IsLineBreak(s[k])
  {
    if s == [] || IsLineBreak(s[0]) then 0 else 1 + IndexOfBreak(s[1..])
  }

  /** A line boundary of `str.splitlines`: `\r\n`, or one boundary character. */
  predicate IsBoundary(b: string) {
    b == "\r\n" || (|b| == 1 && IsLineBreak(b[0]))
  }

  /** The length of the boundary at `k`: two for `\r\n`, otherwise one. */
  function BoundaryWidth(s: string, k: nat): (width: nat)
    requires k < |s| && IsLineBreak(s[k])
    ensures 1 <= width <= 2 && k + width <= |s| && IsBoundary(s[k..k + width])
  {
    if s[k] == '\r' && k + 1 < |s| && s[k + 1] == '\n' then
      assert s[k..k + 2] == "\r\n";
      2
    else 1
  }

  /** `str.splitlines()`: `\r\n` is one boundary, and a final boundary opens no empty line. */
  function SplitLines(s: string): (lines: seq<string>)
    ensures forall i :: 0 <= i < |lines| ==> NoBreak(lines[i])
    decreases |s|
  {
    if s == [] then []
    else
      var k := IndexOfBreak(s);
      if k == |s| then [s]
      else
        var width := BoundaryWidth(s, k);
        [s[..k]] + SplitLines(s[k + width..])
  }

  /** The boundary that ends each line of SplitLines(s); only the last line may end without one. */
  function LineEnds(s: string): (ends: seq<string>)
    ensures |ends| == |SplitLines(s)|
    ensures forall i :: 0 <= i < |ends| ==> IsBoundary(ends[i]) || (i == |ends| - 1 && ends[i] == [])
    decreases |s|
  {
    if s == [] then []
    else
      var k := IndexOfBreak(s);
      if k == |s| then [""]
      else
        var width := BoundaryWidth(s, k);
        var more := LineEnds(s[k + width..]);
        assert SplitLines(s) == [s[..k]] + SplitLines(s[k + width..]);
        assert ([s[k..k + width]] + more)[1..] == more;
        [s[k..k + width]] + more
  }

  /** Every line followed by its boundary, one after the other. */
  function Rejoin(lines: seq<string>, ends: seq<string>): string
    requires |lines| == |ends|
  {
    if lines == [] then "" else lines[0] + ends[0] + Rejoin(lines[1..], ends[1..])
  }

  /** Putting every boundary back after its line gives the text: splitlines loses only the boundaries. */
  lemma {:induction false} SplitLinesRejoin(s: string)
    ensures Rejoin(SplitLines(s), LineEnds(s)) == s
    decreases |s|
  {
    if s != [] {
      var k := IndexOfBreak(s);
      if k == |s| {
        assert s[..k] == s;
      } else {
        var width := BoundaryWidth(s, k);
        var line, end, rest := s[..k], s[k..k + width], s[k + width..];
        SplitLinesRejoin(rest);
        LinesStep(s);
        RejoinCons(line, end, SplitLines(rest), LineEnds(rest));
        CutTwice(s, k, k + width);
      }
    }
  }

  /** No `\r` that ends a line is followed by an empty line ended by `\n`: `\r\n` is one boundary. */
  predicate CrLfWhole(lines: seq<string>, ends: seq<string>)
    requires |lines| == |ends|
  {
    forall i :: 0 <= i < |ends| - 1 && ends[i] == "\r" ==> !(lines[i + 1] == [] && ends[i + 1] == "\n")
  }

  /** A last line without a boundary is not empty: a final boundary opens no empty line. */
  predicate LastLineOpen(lines: seq<string>, ends: seq<string>)
    requires |lines| == |ends|
  {
    |ends| > 0 && ends[|ends| - 1] == [] ==> lines[|ends| - 1] != []
  }

  /** SplitLines and LineEnds cut where `str.splitlines` does. */
  lemma {:induction false} LineEndsExact(s: string)
    ensures CrLfWhole(SplitLines(s), LineEnds(s))
    ensures LastLineOpen(SplitLines(s), LineEnds(s))
    decreases |s|
  {
    if s != [] {
      var k := IndexOfBreak(s);
      if k < |s| {
        var width := BoundaryWidth(s, k);
        var rest := s[k + width..];
        LinesStep(s);
        LineEndsExact(rest);
        if s[k..k + width] == "\r" && rest != [] {
          FirstLine(rest);
          assert s[k + 1] != '\n';
          assert rest[0] == s[k + 1];
        }
        ExactCons(s[..k], s[k..k + width], SplitLines(rest), LineEnds(rest));
      }
    }
  }

  /** Both properties carry over to a line and its boundary put in front. */
  lemma ExactCons(line: string, end: string, lines: seq<string>, ends: seq<string>)
    requires |lines| == |ends| && end != []
    requires CrLfWhole(lines, ends) && LastLineOpen(lines, ends)
    requires end == "\r" && ends != [] ==> !(lines[0] == [] && ends[0] == "\n")
    ensures CrLfWhole([line] + lines, [end] + ends) && LastLineOpen([line] + lines, [end] + ends)
  {
    var ls, es := [line] + lines, [end] + ends;
    assert forall i :: 1 <= i < |es| ==> es[i] == ends[i - 1] && ls[i] == lines[i - 1];
  }

  /** The first line of a non-empty text and the boundary that ends it. */
  lemma FirstLine(s: string)
    requires s != []
    ensures var k := IndexOfBreak(s);
      && SplitLines(s) != [] && SplitLines(s)[0] == s[..k]
      && LineEnds(s)[0] == (if k == |s| then "" else s[k..k + BoundaryWidth(s, k)])
  {
  }

  lemma CutTwice(s: string, a: nat, b: nat)
    requires a <= b <= |s|
    ensures s == s[..a] + s[a..b] + s[b..]
  {
    CutAround(s, a, b);
    ConcatAssoc(s[..a], s[a..b], s[b..]);
  }

  /** One step of splitlines at the first boundary. */
  lemma LinesStep(s: string)
    requires s != [] && IndexOfBreak(s) < |s|
    ensures var k := IndexOfBreak(s); var rest := s[k + BoundaryWidth(s, k)..];
      && SplitLines(s) == [s[..k]] + SplitLines(rest)
      && LineEnds(s) == [s[k..k + BoundaryWidth(s, k)]] + LineEnds(rest)
  {
  }

  lemma RejoinCons(line: string, end: string, lines: seq<string>, ends: seq<string>)
    requires |lines| == |ends|
    ensures Rejoin([line] + lines, [end] + ends) == line + end + Rejoin(lines, ends)
  {
    assert ([line] + lines)[1..] == lines;
    assert ([end] + ends)[1..] == ends;
  }

  /** A piece of a string without `sep` is without `sep`. */
  lemma FreeSlice(s: string, sep: string, a: nat, b: nat)
    requires sep != [] && Free(s, sep) && a <= b <= |s|
    ensures Free(s[a..b], sep)
  {
    forall j | 0 <= j < b - a ensures !OccursAt(s[a..b], sep, j) {
      if j + |sep| <= b - a {
        SliceOfSlice(s, a, b, j, j + |sep|);
        assert !OccursAt(s, sep, a + j);
      }
    }
  }

  /** `s.split(sep)`: the pieces between the occurrences of `sep`, left to right, without overlap. */
  function Split(s: string, sep: string): (parts: seq<string>)
    requires sep != []
    ensures |parts| >= 1
    ensures forall i :: 0 <= i < |parts| ==> Free(parts[i], sep)
    ensures Join(parts, sep) == s
    ensures forall i :: 0 <= i < |parts| - 1 ==> Free(parts[i] + sep[..|sep| - 1], sep)
    decreases |s|
  {
    match Find(s, sep)
    case None => [s]
    case Some(k) =>
      var rest := Split(s[k + |sep|..], sep);
      SplitCons(s, sep, k, rest);
      [s[..k]] + rest
  }

  /** One step of Split: the piece in front of the leftmost `sep`, then the pieces of what follows it. */
  lemma SplitCons(s: string, sep: string, k: nat, rest: seq<string>)
    requires sep != [] && Find(s, sep) == Some(k)
    requires |rest| >= 1 && Join(rest, sep) == s[k + |sep|..]
    requires forall i :: 0 <= i < |rest| ==> Free(rest[i], sep)
    requires forall i :: 0 <= i < |rest| - 1 ==> Free(rest[i] + sep[..|sep| - 1], sep)
    ensures var parts := [s[..k]] + rest;
      && (forall i :: 0 <= i < |parts| ==> Free(parts[i], sep))
      && Join(parts, sep) == s
      && (forall i :: 0 <= i < |parts| - 1 ==> Free(parts[i] + sep[..|sep| - 1], sep))
  {
    LeftmostCut(s, sep, k);
    FreeSlice(s[..k] + sep[..|sep| - 1], sep, 0, k);
    assert (s[..k] + sep[..|sep| - 1])[0..k] == s[..k];
    ConsEach(s[..k], rest, sep);
    JoinCons(s, sep, k, rest);
  }

  /** A piece with the property, put in front of pieces with it, gives pieces with it. */
  lemma ConsEach(p: string, rest: seq<string>, sep: string)
    requires sep != [] && |rest| >= 1 && Free(p, sep) && Free(p + sep[..|sep| - 1], sep)
    requires forall i :: 0 <= i < |rest| ==> Free(rest[i], sep)
    requires forall i :: 0 <= i < |rest| - 1 ==> Free(rest[i] + sep[..|sep| - 1], sep)
    ensures var parts := [p] + rest;
      && (forall i :: 0 <= i < |parts| ==> Free(parts[i], sep))
      && (forall i :: 0 <= i < |parts| - 1 ==> Free(parts[i] + sep[..|sep| - 1], sep))
  {
    var parts := [p] + rest;
    assert forall i :: 1 <= i < |parts| ==> parts[i] == rest[i - 1];
  }

  /** Joining the piece in front of `sep` with the pieces after it gives the whole text. */
  lemma JoinCons(s: string, sep: string, k: nat, rest: seq<string>)
    requires OccursAt(s, sep, k) && |rest| >= 1 && Join(rest, sep) == s[k + |sep|..]
    ensures Join([s[..k]] + rest, sep) == s
  {
    assert ([s[..k]] + rest)[1..] == rest;
    CutAround(s, k, k + |sep|);
    ConcatAssoc(s[..k], sep, s[k + |sep|..]);
  }

  /**
    No occurrence of `sep` starts before the leftmost one, so the piece in front
    of it, followed by all of `sep` but its last character, is free of `sep`.
   */
  lemma LeftmostCut(s: string, sep: string, k: nat)
    requires sep != [] && Find(s, sep) == Some(k)
    ensures Free(s[..k] + sep[..|sep| - 1], sep)
  {
    var p := s[..k] + sep[..|sep| - 1];
    assert s[k..k + |sep|] == sep;
    assert p == s[..k + |sep| - 1];
    forall j | 0 <= j < |p| ensures !OccursAt(p, sep, j) {
      if j + |sep| <= |p| {
        SliceOfSlice(s, 0, k + |sep| - 1, j, j + |sep|);
        assert s[..k + |sep| - 1] == s[0..k + |sep| - 1];
        assert !OccursAt(s, sep, j);
      }
    }
  }

  /** `[p.strip() for p in parts]` */
  function StripAll(parts: seq<string>): (r: seq<string>)
    ensures |r| == |parts|
    ensures forall i :: 0 <= i < |r| ==> r[i] == Strip(parts[i])
  {
    if parts == [] then [] else [Strip(parts[0])] + StripAll(parts[1..])
  }

  /** The stripped phrases of one line (services.py:310). */
  function Phrases(line: string): (r: seq<string>)
    ensures |r| >= 1
    ensures forall i :: 0 <= i < |r| ==> Stripped(r[i])
    ensures |r| == |Split(Strip(line), DoubleSpace)|
    ensures forall i :: 0 <= i < |r| ==> r[i] == Strip(Split(Strip(line), DoubleSpace)[i])
  {
    StripAll(Split(Strip(line), DoubleSpace))
  }

  /** The phrases of every line, in order. */
  function Chunks(lines: seq<string>): (r: seq<string>)
    ensures |r| >= |lines|
    ensures forall i :: 0 <= i < |r| ==> Stripped(r[i])
  {
    if lines == [] then [] else Phrases(lines[0]) + Chunks(lines[1..])
  }

  /** A chunk as services.py:310 leaves it. */
  predicate ChunkShape(c: string) {
    NoBreak(c) && Free(c, DoubleSpace) && Stripped(c)
  }

  /** Every phrase of a line without line boundaries has the shape of a chunk. */
  lemma PhrasesShape(line: string)
    requires NoBreak(line)
    ensures forall i :: 0 <= i < |Phrases(line)| ==> ChunkShape(Phrases(line)[i])
  {
    var s := Strip(line);
    var parts := Split(s, DoubleSpace);
    forall i | 0 <= i < |parts| ensures ChunkShape(Strip(parts[i])) {
      SplitNoBreak(s, i);
      StrippedPiece(parts[i]);
    }
  }

  /** A piece without line boundaries and double spaces keeps both once stripped. */
  lemma StrippedPiece(p: string)
    requires NoBreak(p) && Free(p, DoubleSpace)
    ensures ChunkShape(Strip(p))
  {
    var a := SpanSpace(p);
    var r := Strip(p);
    FreeSlice(p, DoubleSpace, a, a + |r|);
  }

  /** Splitting a string without line boundaries gives pieces without line boundaries. */
  lemma {:induction false} SplitNoBreak(s: string, i: nat)
    requires NoBreak(s) && i < |Split(s, DoubleSpace)|
    ensures NoBreak(Split(s, DoubleSpace)[i])
    decreases |s|
  {
    match Find(s, DoubleSpace)
    case None =>
    case Some(k) =>
      if i > 0 {
        SplitNoBreak(s[k + 2..], i - 1);
      }
  }

  /** Every chunk of lines without line boundaries has the shape of a chunk. */
  lemma {:induction false} ChunksShape(lines: seq<string>)
    requires forall i :: 0 <= i < |lines| ==> NoBreak(lines[i])
    ensures forall i :: 0 <= i < |Chunks(lines)| ==> ChunkShape(Chunks(lines)[i])
  {
    if lines != [] {
      PhrasesShape(lines[0]);
      ChunksShape(lines[1..]);
    }
  }

  /** `c for c in chunks if c` */
  function NonEmpty(chunks: seq<string>): (r: seq<string>)
    ensures forall i :: 0 <= i < |r| ==> r[i] != []
    ensures r == [] <==> forall i :: 0 <= i < |chunks| ==> chunks[i] == []
  {
    if chunks == [] then []
    else (if chunks[0] == [] then [] else [chunks[0]]) + NonEmpty(chunks[1..])
  }

  /** The filter keeps a chunk exactly when it is not empty. */
  lemma NonEmptyOne(c: string)
    ensures NonEmpty([c]) == if c == [] then [] else [c]
  {
    assert [c][1..] == [];
  }

  /** The filter works chunk by chunk, keeping the order. */
  lemma {:induction false} NonEmptyConcat(p: seq<string>, q: seq<string>)
    ensures NonEmpty(p + q) == NonEmpty(p) + NonEmpty(q)
  {
    if p == [] {
      assert p + q == q;
    } else {
      assert (p + q)[0] == p[0] && (p + q)[1..] == p[1..] + q;
      NonEmptyConcat(p[1..], q);
    }
  }

  /** The chunks of one line are its phrases. */
  lemma ChunksOne(line: string)
    ensures Chunks([line]) == Phrases(line)
  {
    assert [line][1..] == [];
  }

  /** The chunks of the lines are the chunks of each line, in order. */
  lemma {:induction false} ChunksConcat(a: seq<string>, b: seq<string>)
    ensures Chunks(a + b) == Chunks(a) + Chunks(b)
  {
    if a == [] {
      assert a + b == b;
    } else {
      var ab := a + b;
      assert ab[0] == a[0] && ab[1..] == a[1..] + b;
      assert Chunks(ab) == Phrases(a[0]) + Chunks(a[1..] + b);
      ChunksConcat(a[1..], b);
      SeqAssoc(Phrases(a[0]), Chunks(a[1..]), Chunks(b));
    }
  }

  lemma SeqAssoc(x: seq<string>, y: seq<string>, z: seq<string>)
    ensures x + (y + z) == x + y + z
  {
  }

  /** `' '.join(c for c in chunks if c)`, one chunk at a time. */
  function JoinNonEmpty(chunks: seq<string>): (r: string)
    ensures r == [] <==> forall i :: 0 <= i < |chunks| ==> chunks[i] == []
    ensures r == Join(NonEmpty(chunks), " ")
  {
    if chunks == [] then ""
    else
      var rest := JoinNonEmpty(chunks[1..]);
      var more := NonEmpty(chunks[1..]);
      if chunks[0] == [] then
        assert NonEmpty(chunks) == more;
        rest
      else if rest == [] then
        assert NonEmpty(chunks) == [chunks[0]] + more;
        chunks[0]
      else
        assert NonEmpty(chunks) == [chunks[0]] + more;
        assert ([chunks[0]] + more)[1..] == more;
        chunks[0] + " " + rest
  }

  /** One space between two collapsed, non-empty strings keeps them collapsed. */
  lemma JoinTwo(a: string, b: string)
    requires a != [] && b != [] && Collapsed(a) && Collapsed(b)
    ensures Collapsed(a + " " + b)
  {
    var r := a + " " + b;
    assert r[0] == a[0] && r[|r| - 1] == b[|b| - 1];
    forall j | 0 <= j < |r| ensures !OccursAt(r, DoubleSpace, j) {
      if j + 2 <= |a| {
        assert r[j..j + 2] == a[j..j + 2];
        assert !OccursAt(a, DoubleSpace, j);
      } else if j == |a| - 1 {
        assert r[j] == a[|a| - 1];
      } else if j == |a| && j + 2 <= |r| {
        assert r[j + 1] == b[0];
      } else if |a| < j && j + 2 <= |r| {
        assert r[j..j + 2] == b[j - |a| - 1..j - |a| + 1];
        assert !OccursAt(b, DoubleSpace, j - |a| - 1);
      }
    }
    forall i | 0 <= i < |r| ensures !IsLineBreak(r[i]) {
      if i < |a| {
        assert r[i] == a[i];
      } else if i > |a| {
        assert r[i] == b[i - |a| - 1];
      }
    }
  }

  /** Joining chunks of the right shape gives a collapsed text. */
  lemma {:induction false} JoinCollapsed(chunks: seq<string>)
    requires forall i :: 0 <= i < |chunks| ==> ChunkShape(chunks[i])
    ensures Collapsed(JoinNonEmpty(chunks))
  {
    if chunks != [] {
      JoinCollapsed(chunks[1..]);
      var rest := JoinNonEmpty(chunks[1..]);
      if chunks[0] != [] && rest != [] {
        JoinTwo(chunks[0], rest);
      }
    }
  }

  /** The whitespace-collapsing tail of clean_html_content. */
  function Collapse(text: string): (r: string)
    ensures Collapsed(r)
  {
    var lines := SplitLines(text);
    ChunksShape(lines);
    JoinCollapsed(Chunks(lines));
    JoinNonEmpty(Chunks(lines))
  }

  /** The characters of `s` other than whitespace, in order. */
  function Visible(s: string): string {
    if s == [] then [] else (if IsSpace(s[0]) then [] else [s[0]]) + Visible(s[1..])
  }

  lemma {:induction false} VisibleConcat(a: string, b: string)
    ensures Visible(a + b) == Visible(a) + Visible(b)
  {
    if a == [] {
      assert a + b == b;
    } else {
      assert (a + b)[1..] == a[1..] + b;
      VisibleConcat(a[1..], b);
    }
  }

  lemma {:induction false} VisibleAllSpace(s: string)
    requires AllSpace(s)
    ensures Visible(s) == []
  {
    if s != [] {
      VisibleAllSpace(s[1..]);
    }
  }

  /** `strip` removes only whitespace. */
  lemma VisibleStrip(s: string)
    ensures Visible(Strip(s)) == Visible(s)
  {
    var x, z := StripParts(s);
    VisibleSandwich(x, Strip(s), z);
  }

  /** Whitespace on both sides of a string is invisible. */
  lemma VisibleSandwich(x: string, r: string, z: string)
    requires AllSpace(x) && AllSpace(z)
    ensures Visible(x + (r + z)) == Visible(r)
  {
    VisibleConcat(x, r + z);
    VisibleConcat(r, z);
    VisibleAllSpace(x);
    VisibleAllSpace(z);
    assert [] + (Visible(r) + []) == Visible(r);
  }

  /** The visible characters of every string in `parts`, one after the other. */
  function VisibleAll(parts: seq<string>): string {
    if parts == [] then [] else Visible(parts[0]) + VisibleAll(parts[1..])
  }

  lemma {:induction false} VisibleAllConcat(p: seq<string>, q: seq<string>)
    ensures VisibleAll(p + q) == VisibleAll(p) + VisibleAll(q)
  {
    if p == [] {
      assert p + q == q;
    } else {
      assert (p + q)[1..] == p[1..] + q;
      VisibleAllConcat(p[1..], q);
    }
  }

  /** Joining with a whitespace separator keeps exactly the visible characters of the parts. */
  lemma {:induction false} VisibleJoinSpace(parts: seq<string>, sep: string)
    requires AllSpace(sep)
    ensures Visible(Join(parts, sep)) == VisibleAll(parts)
  {
    if |parts| == 1 {
      assert VisibleAll(parts) == Visible(parts[0]) + VisibleAll([]);
    } else if |parts| > 1 {
      VisibleJoinSpace(parts[1..], sep);
      ConcatAssoc(parts[0], sep, Join(parts[1..], sep));
      VisibleAround(parts[0], sep, Join(parts[1..], sep));
    }
  }

  /** Cutting at double spaces drops only the spaces. */
  lemma VisibleSplit(s: string)
    ensures VisibleAll(Split(s, DoubleSpace)) == Visible(s)
  {
    VisibleJoinSpace(Split(s, DoubleSpace), DoubleSpace);
  }

  lemma {:induction false} VisibleStripAll(parts: seq<string>)
    ensures VisibleAll(StripAll(parts)) == VisibleAll(parts)
  {
    if parts != [] {
      VisibleStrip(parts[0]);
      assert StripAll(parts)[1..] == StripAll(parts[1..]);
      VisibleStripAll(parts[1..]);
    }
  }

  lemma VisiblePhrases(line: string)
    ensures VisibleAll(Phrases(line)) == Visible(line)
  {
    VisibleStripAll(Split(Strip(line), DoubleSpace));
    VisibleSplit(Strip(line));
    VisibleStrip(line);
  }

  lemma {:induction false} VisibleChunks(lines: seq<string>)
    ensures VisibleAll(Chunks(lines)) == VisibleAll(lines)
  {
    if lines != [] {
      VisibleAllConcat(Phrases(lines[0]), Chunks(lines[1..]));
      VisiblePhrases(lines[0]);
      VisibleChunks(lines[1..]);
    }
  }

  /** Whitespace between two strings is invisible. */
  lemma VisibleAround(x: string, y: string, z: string)
    requires AllSpace(y)
    ensures Visible(x + (y + z)) == Visible(x) + Visible(z)
  {
    VisibleConcat(x, y + z);
    VisibleConcat(y, z);
    VisibleAllSpace(y);
  }

  /** The boundary SplitLines skips is whitespace. */
  lemma BoundaryIsSpace(s: string, k: nat, width: nat)
    requires k < |s| && IsLineBreak(s[k])
    requires width == BoundaryWidth(s, k)
    ensures k + width <= |s| && AllSpace(s[k..k + width])
  {
  }

  /** Cutting into lines drops only the line boundaries, which are whitespace. */
  lemma {:induction false} VisibleLines(s: string)
    ensures VisibleAll(SplitLines(s)) == Visible(s)
    decreases |s|
  {
    if s != [] {
      var k := IndexOfBreak(s);
      if k < |s| {
        var width := BoundaryWidth(s, k);
        var rest := s[k + width..];
        BoundaryIsSpace(s, k, width);
        assert s == s[..k] + (s[k..k + width] + rest);
        VisibleAround(s[..k], s[k..k + width], rest);
        assert SplitLines(s) == [s[..k]] + SplitLines(rest);
        VisibleLines(rest);
      }
    }
  }

  /** Joining with single spaces adds only spaces. */
  lemma {:induction false} VisibleJoin(chunks: seq<string>)
    ensures Visible(JoinNonEmpty(chunks)) == VisibleAll(chunks)
  {
    if chunks != [] {
      var c := chunks[0];
      var rest := JoinNonEmpty(chunks[1..]);
      VisibleJoin(chunks[1..]);
      if c != [] && rest != [] {
        VisibleSpaced(c, rest);
      }
    }
  }

  /** One space between two strings adds nothing visible. */
  lemma VisibleSpaced(a: string, b: string)
    ensures Visible(a + " " + b) == Visible(a) + Visible(b)
  {
    VisibleConcat(a + " ", b);
    VisibleConcat(a, " ");
    VisibleAllSpace(" ");
    assert Visible(a) + [] == Visible(a);
  }

  /** clean_html_content keeps every visible character of the text, in order, and adds none. */
  lemma CollapseKeepsVisible(text: string)
    ensures Visible(Collapse(text)) == Visible(text)
  {
    var lines := SplitLines(text);
    VisibleJoin(Chunks(lines));
    VisibleChunks(lines);
    VisibleLines(text);
  }

  lemma {:induction false} IndexOfBreakNone(s: string)
    requires NoBreak(s)
    ensures IndexOfBreak(s) == |s|
  {
    if s != [] {
      IndexOfBreakNone(s[1..]);
    }
  }

  /** A collapsed text comes out of clean_html_content unchanged, so cleaning twice is cleaning once. */
  lemma CollapseFixesCollapsed(text: string)
    requires Collapsed(text)
    ensures Collapse(text) == text
  {
    if text != [] {
      IndexOfBreakNone(text);
      assert SplitLines(text) == [text];
      StripStripped(text);
      assert Find(text, DoubleSpace) == None;
      assert Split(text, DoubleSpace) == [text];
      assert Chunks([text]) == Phrases(text) + Chunks([]);
    }
  }

  /** Two phrases a double space apart come out one space apart: `"Hello  world"` becomes `"Hello world"`. */
  lemma CollapseDoubleSpace(a: string, b: string)
    requires a != [] && b != [] && Collapsed(a) && Collapsed(b)
    ensures Collapse(a + DoubleSpace + b) == a + " " + b
  {
    var t := a + DoubleSpace + b;
    JoinedNoBreak(a, b);
    IndexOfBreakNone(t);
    assert SplitLines(t) == [t];
    PhrasesAtDoubleSpace(a, b);
    assert Chunks([t]) == Phrases(t) + Chunks([]);
    JoinTwoChunks(a, b);
    CollapseOfLines(t, [a, b]);
  }

  /**
    Two phrases on two lines come out one space apart: `"Hello\nworld"` becomes
    `"Hello world"`, for any one-character line boundary.
   */
  lemma CollapseLineBreak(a: string, c: char, b: string)
    requires a != [] && b != [] && Collapsed(a) && Collapsed(b) && IsLineBreak(c)
    ensures Collapse(a + [c] + b) == a + " " + b
  {
    var t := a + [c] + b;
    LinesAtBreak(a, c, b);
    ChunksOfTwo(a, b);
    JoinTwoChunks(a, b);
    CollapseOfLines(t, [a, b]);
  }

  /** A single line boundary between two lines without one cuts there. */
  lemma LinesAtBreak(a: string, c: char, b: string)
    requires b != [] && NoBreak(a) && NoBreak(b) && IsLineBreak(c)
    ensures SplitLines(a + [c] + b) == [a, b]
  {
    var t := a + [c] + b;
    assert t == a + ([c] + b);
    IndexOfBreakAfter(a, [c] + b);
    assert t[|a|] == c && t[|a| + 1..] == b;
    IndexOfBreakNone(b);
    assert BoundaryWidth(t, |a|) == 1 by {
      assert t[|a| + 1] == b[0];
    }
    LinesStep(t);
    assert SplitLines(b) == [b];
    assert t[..|a|] == a;
  }

  /** Two collapsed lines are their own chunks. */
  lemma ChunksOfTwo(a: string, b: string)
    requires Collapsed(a) && Collapsed(b)
    ensures Chunks([a, b]) == [a, b]
  {
    assert [a, b] == [a] + [b];
    ChunksConcat([a], [b]);
    ChunksOne(a);
    ChunksOne(b);
    PhrasesCollapsed(a);
    PhrasesCollapsed(b);
  }

  /** The first line boundary after a text without one is where that text ends. */
  lemma {:induction false} IndexOfBreakAfter(a: string, rest: string)
    requires NoBreak(a) && rest != [] && IsLineBreak(rest[0])
    ensures IndexOfBreak(a + rest) == |a|
  {
    if a != [] {
      assert (a + rest)[1..] == a[1..] + rest;
      IndexOfBreakAfter(a[1..], rest);
    } else {
      assert a + rest == rest;
    }
  }

  /** A collapsed line is its own only phrase. */
  lemma PhrasesCollapsed(a: string)
    requires Collapsed(a)
    ensures Phrases(a) == [a]
  {
    StripStripped(a);
    FreeNotFound(a, DoubleSpace);
    assert Split(a, DoubleSpace) == [a];
  }

  /** Collapse joins the chunks of the lines. */
  lemma CollapseOfLines(text: string, chunks: seq<string>)
    requires Chunks(SplitLines(text)) == chunks
    ensures Collapse(text) == JoinNonEmpty(chunks)
  {
  }

  lemma JoinTwoChunks(a: string, b: string)
    requires a != [] && b != []
    ensures JoinNonEmpty([a, b]) == a + " " + b
  {
    assert [a, b][1..] == [b];
    assert JoinNonEmpty([b]) == b;
  }

  lemma PhrasesAtDoubleSpace(a: string, b: string)
    requires a != [] && b != [] && Collapsed(a) && Collapsed(b)
    ensures Phrases(a + DoubleSpace + b) == [a, b]
  {
    var t := a + DoubleSpace + b;
    assert t[0] == a[0] && t[|t| - 1] == b[|b| - 1];
    StripStripped(t);
    SplitAtDoubleSpace(a, b);
    StripStripped(a);
    StripStripped(b);
    assert StripAll([a, b]) == [Strip(a)] + StripAll([b]);
  }

  lemma JoinedNoBreak(a: string, b: string)
    requires NoBreak(a) && NoBreak(b)
    ensures NoBreak(a + DoubleSpace + b)
  {
    var t := a + DoubleSpace + b;
    forall i | 0 <= i < |t| ensures !IsLineBreak(t[i]) {
      if i < |a| {
        assert t[i] == a[i];
      } else if i >= |a| + 2 {
        assert t[i] == b[i - |a| - 2];
      }
    }
  }

  /** `find` finds nothing in a string without the pattern. */
  lemma FreeNotFound(s: string, sep: string)
    requires sep != [] && Free(s, sep)
    ensures Find(s, sep) == None
  {
    if Find(s, sep).Some? {
      assert false;
    }
  }

  /** A double space between two collapsed phrases is the only place split cuts. */
  lemma SplitAtDoubleSpace(a: string, b: string)
    requires a != [] && b != [] && Collapsed(a) && Collapsed(b)
    ensures Split(a + DoubleSpace + b, DoubleSpace) == [a, b]
  {
    var t := a + DoubleSpace + b;
    assert OccursAt(t, DoubleSpace, |a|) by {
      assert t[|a|..|a| + 2] == DoubleSpace;
    }
    forall j | 0 <= j < |a| ensures !OccursAt(t, DoubleSpace, j) {
      if j + 2 <= |a| {
        assert t[j..j + 2] == a[j..j + 2];
        assert !OccursAt(a, DoubleSpace, j);
      } else {
        assert t[j] == a[|a| - 1];
      }
    }
    assert Find(t, DoubleSpace) == Some(|a|);
    assert t[..|a|] == a && t[|a| + 2..] == b;
    FreeNotFound(b, DoubleSpace);
  }

  lemma CollapseIdempotent(text: string)
    ensures Collapse(Collapse(text)) == Collapse(text)
  {
    CollapseFixesCollapsed(Collapse(text));
  }
}
