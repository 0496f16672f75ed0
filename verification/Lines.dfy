/** What grep is about: the lines of a file, and the pieces that a 1024-byte
    buffer cuts them into. */
module Lines {
  import opened Bytes

  const BUFSIZE := 1024

  /** A file split at its newlines; a last line without a newline counts, an empty one does not. */
  function LinesOf(f: seq<byte>): seq<seq<byte>>
    decreases |f|
  {
    if f == [] then [] else
    var k := Find(f, NEWLINE);
    if k < |f| then [f[..k]] + LinesOf(f[k + 1..]) else [f]
  }

  /** The same with every line broken after 1024 bytes. */
  function Pieces(f: seq<byte>): seq<seq<byte>>
    decreases |f|
  {
    if f == [] then [] else
    var k := Find(f, NEWLINE);
    if k < |f| && k < BUFSIZE then [f[..k]] + Pieces(f[k + 1..])
    else if |f| >= BUFSIZE then [f[..BUFSIZE]] + Pieces(f[BUFSIZE..])
    else [f]
  }

  predicate OccursAt(line: seq<byte>, s: seq<byte>, i: int) {
    0 <= i <= |line| - |s| && line[i..i + |s|] == s
  }

  /** A line contains a non-empty pattern. */
  ghost predicate Hits(line: seq<byte>, s: seq<byte>) {
    s != [] && exists i :: OccursAt(line, s, i)
  }

  /** The lines that a pattern hits, in order. */
  ghost function Selected(lines: seq<seq<byte>>, s: seq<byte>): seq<seq<byte>> {
    if lines == [] then [] else
    (if Hits(lines[0], s) then [lines[0]] else []) + Selected(lines[1..], s)
  }

  /** One output line: file name, colon, line, newline. */
  function Entry(fname: seq<byte>, line: seq<byte>): seq<byte> {
    fname + [58] + line + [NEWLINE]
  }

  function Render(fname: seq<byte>, lines: seq<seq<byte>>): seq<byte> {
    if lines == [] then [] else Entry(fname, lines[0]) + Render(fname, lines[1..])
  }

  /** grep's output for a list of lines. */
  ghost function Report(fname: seq<byte>, s: seq<byte>, lines: seq<seq<byte>>): seq<byte> {
    Render(fname, Selected(lines, s))
  }

  lemma ReportCons(fname: seq<byte>, s: seq<byte>, line: seq<byte>, lines: seq<seq<byte>>)
    ensures Report(fname, s, [line] + lines) ==
            (if Hits(line, s) then Entry(fname, line) else []) + Report(fname, s, lines)
  {
    var all := [line] + lines;
    assert all[1..] == lines;
    if Hits(line, s) {
      var sel := Selected(all, s);
      assert sel == [line] + Selected(lines, s);
      assert sel[1..] == Selected(lines, s);
    } else {
      assert Selected(all, s) == Selected(lines, s);
    }
  }

  lemma PieceAtNewline(f: seq<byte>, k: nat)
    requires k < |f| && k < BUFSIZE && f[k] == NEWLINE && forall i :: 0 <= i < k ==> f[i] != NEWLINE
    ensures Pieces(f) == [f[..k]] + Pieces(f[k + 1..])
  {
    FindIs(f, NEWLINE, k);
  }

  lemma PieceFullBuffer(f: seq<byte>)
    requires |f| >= BUFSIZE && forall i :: 0 <= i < BUFSIZE ==> f[i] != NEWLINE
    ensures Pieces(f) == [f[..BUFSIZE]] + Pieces(f[BUFSIZE..])
  {
  }

  lemma PieceLast(f: seq<byte>)
    requires |f| < BUFSIZE && forall i :: 0 <= i < |f| ==> f[i] != NEWLINE
    ensures Pieces(f) == if f == [] then [] else [f]
  {
  }

  /** Every line that a pattern hits fits into the buffer. */
  ghost predicate HitsAreShort(f: seq<byte>, s: seq<byte>) {
    forall l :: l in LinesOf(f) && Hits(l, s) ==> |l| <= BUFSIZE
  }

  /** What follows the first line. */
  function AfterLine(f: seq<byte>): seq<byte> {
    var k := Find(f, NEWLINE);
    if k < |f| then f[k + 1..] else []
  }

  lemma {:induction false} PieceIsShort(f: seq<byte>, l: seq<byte>)
    requires l in Pieces(f)
    ensures |l| <= BUFSIZE
    decreases |f|
  {
    var k := Find(f, NEWLINE);
    if k < |f| && k < BUFSIZE {
      assert Pieces(f) == [f[..k]] + Pieces(f[k + 1..]);
      if l != f[..k] {
        PieceIsShort(f[k + 1..], l);
      }
    } else if |f| >= BUFSIZE {
      assert Pieces(f) == [f[..BUFSIZE]] + Pieces(f[BUFSIZE..]);
      if l != f[..BUFSIZE] {
        PieceIsShort(f[BUFSIZE..], l);
      }
    }
  }

  lemma {:induction false} SelectedIn(lines: seq<seq<byte>>, s: seq<byte>, l: seq<byte>)
    ensures l in Selected(lines, s) <==> l in lines && Hits(l, s)
  {
    if lines != [] {
      SelectedIn(lines[1..], s, l);
      assert lines == [lines[0]] + lines[1..];
    }
  }

  lemma SelectedCons(line: seq<byte>, lines: seq<seq<byte>>, s: seq<byte>)
    ensures Selected([line] + lines, s) == (if Hits(line, s) then [line] else []) + Selected(lines, s)
  {
    assert ([line] + lines)[1..] == lines;
  }

  /** A part of a line is hit only if the line is. */
  lemma HitsPart(line: seq<byte>, s: seq<byte>, i: nat, j: nat)
    requires i <= j <= |line| && Hits(line[i..j], s)
    ensures Hits(line, s)
  {
    var k :| OccursAt(line[i..j], s, k);
    SubSlice(line, i, j, k, k + |s|);
    assert OccursAt(line, s, i + k);
  }

  /** No piece of a line that the pattern does not hit is selected, however long the line is. */
  lemma {:induction false} SkipLine(f: seq<byte>, s: seq<byte>)
    requires !Hits(f[..Find(f, NEWLINE)], s)
    ensures Selected(Pieces(f), s) == Selected(Pieces(AfterLine(f)), s)
    decreases |f|
  {
    var k := Find(f, NEWLINE);
    if k < |f| && k < BUFSIZE {
      SelectedCons(f[..k], Pieces(f[k + 1..]), s);
    } else if |f| >= BUFSIZE {
      var g, line := f[BUFSIZE..], f[..k];
      FindIs(g, NEWLINE, k - BUFSIZE);
      SubSlice(f, BUFSIZE, |f|, 0, k - BUFSIZE);
      SubSlice(f, 0, k, BUFSIZE, k);
      SubSlice(f, 0, k, 0, BUFSIZE);
      assert f[0..k] == line && f[BUFSIZE..|f|] == g;
      SkipParts(line, s);
      SkipLine(g, s);
      assert AfterLine(g) == AfterLine(f);
      SelectedCons(f[..BUFSIZE], Pieces(g), s);
    } else {
      assert f[..k] == f;
    }
  }

  lemma SkipParts(line: seq<byte>, s: seq<byte>)
    requires |line| >= BUFSIZE && !Hits(line, s)
    ensures !Hits(line[0..BUFSIZE], s) && !Hits(line[BUFSIZE..|line|], s)
  {
    if Hits(line[0..BUFSIZE], s) {
      HitsPart(line, s, 0, BUFSIZE);
    }
    if Hits(line[BUFSIZE..|line|], s) {
      HitsPart(line, s, BUFSIZE, |line|);
    }
  }

  /** A line that fits into the buffer is one piece; one of exactly 1024 bytes is followed by an empty piece, which
      no pattern selects. */
  lemma ShortLine(f: seq<byte>, s: seq<byte>)
    requires f != [] && Find(f, NEWLINE) <= BUFSIZE
    ensures Selected(Pieces(f), s) == Selected([f[..Find(f, NEWLINE)]] + Pieces(AfterLine(f)), s)
  {
    var k := Find(f, NEWLINE);
    if k < |f| && k < BUFSIZE {
      PieceAtNewline(f, k);
    } else if k == BUFSIZE {
      PieceFullBuffer(f);
      SelectedCons(f[..k], Pieces(f[k..]), s);
      SelectedCons(f[..k], Pieces(AfterLine(f)), s);
      EmptyLine(f, k, s);
    } else {
      PieceLast(f);
      assert f[..k] == f;
    }
  }

  lemma EmptyLine(f: seq<byte>, k: nat, s: seq<byte>)
    requires k == Find(f, NEWLINE)
    ensures Selected(Pieces(f[k..]), s) == Selected(Pieces(AfterLine(f)), s)
  {
    var g := f[k..];
    if k < |f| {
      FindIs(g, NEWLINE, 0);
      assert AfterLine(g) == AfterLine(f);
    }
    assert g[..Find(g, NEWLINE)] == [] && !Hits([], s);
    SkipLine(g, s);
  }

  /** When every line that the pattern hits fits into the buffer, breaking lines selects the same lines. */
  lemma {:induction false} SameSelection(f: seq<byte>, s: seq<byte>)
    requires HitsAreShort(f, s)
    ensures Selected(Pieces(f), s) == Selected(LinesOf(f), s)
    decreases |f|
  {
    if f != [] {
      var line, rest := f[..Find(f, NEWLINE)], AfterLine(f);
      assert LinesOf(f) == [line] + LinesOf(rest) by {
        assert line == f || Find(f, NEWLINE) < |f|;
      }
      assert line in LinesOf(f) && forall l :: l in LinesOf(rest) ==> l in LinesOf(f);
      SameSelection(rest, s);
      SelectedCons(line, LinesOf(rest), s);
      SelectedCons(line, Pieces(rest), s);
      if Hits(line, s) {
        ShortLine(f, s);
      } else {
        SkipLine(f, s);
      }
    }
  }

  /** A longer line that the pattern hits is never selected whole. */
  lemma LongLineIsLost(f: seq<byte>, s: seq<byte>, l: seq<byte>)
    requires l in LinesOf(f) && Hits(l, s) && |l| > BUFSIZE
    ensures l in Selected(LinesOf(f), s) && l !in Selected(Pieces(f), s)
  {
    SelectedIn(LinesOf(f), s, l);
    SelectedIn(Pieces(f), s, l);
    if l in Pieces(f) {
      PieceIsShort(f, l);
    }
  }

  /** Breaking lines after 1024 bytes selects exactly the lines containing the pattern if and only if none of these
      is longer than that. */
  lemma SelectionIsExactIff(f: seq<byte>, s: seq<byte>)
    ensures Selected(Pieces(f), s) == Selected(LinesOf(f), s) <==> HitsAreShort(f, s)
  {
    if HitsAreShort(f, s) {
      SameSelection(f, s);
    } else {
      var l :| l in LinesOf(f) && Hits(l, s) && |l| > BUFSIZE;
      LongLineIsLost(f, s, l);
    }
  }

  /** Neither lines nor pieces contain a newline. */
  lemma {:induction false} NoNewline(f: seq<byte>, l: seq<byte>)
    requires l in LinesOf(f) || l in Pieces(f)
    ensures NEWLINE !in l
    decreases |f|
  {
    var k := Find(f, NEWLINE);
    if k < |f| && (l in LinesOf(f[k + 1..]) || l in Pieces(f[k + 1..])) {
      NoNewline(f[k + 1..], l);
    } else if |f| >= BUFSIZE && l in Pieces(f[BUFSIZE..]) {
      NoNewline(f[BUFSIZE..], l);
    }
  }

  /** The output determines the lines that were printed. */
  lemma {:induction false} RenderInjective(fname: seq<byte>, a: seq<seq<byte>>, b: seq<seq<byte>>)
    requires Render(fname, a) == Render(fname, b)
    requires forall l :: l in a || l in b ==> NEWLINE !in l
    ensures a == b
  {
    if a != [] && b != [] {
      EntryInjective(fname, a[0], b[0], Render(fname, a[1..]), Render(fname, b[1..]));
      RenderInjective(fname, a[1..], b[1..]);
      assert a == [a[0]] + a[1..] && b == [b[0]] + b[1..];
    }
  }

  lemma EntryInjective(fname: seq<byte>, l: seq<byte>, m: seq<byte>, x: seq<byte>, y: seq<byte>)
    requires Entry(fname, l) + x == Entry(fname, m) + y && NEWLINE !in l && NEWLINE !in m
    ensures l == m && x == y
  {
    var n := |fname| + 1;
    var u, v := l + [NEWLINE] + x, m + [NEWLINE] + y;
    assert u == (Entry(fname, l) + x)[n..] && v == (Entry(fname, m) + y)[n..];
    FindIs(u, NEWLINE, |l|);
    FindIs(v, NEWLINE, |m|);
    assert u[..|l|] == l && v[..|m|] == m;
    assert u[|l| + 1..] == x && v[|m| + 1..] == y;
  }

  /** The same lines are printed exactly when the same lines are selected. */
  lemma ReportsAgree(fname: seq<byte>, s: seq<byte>, f: seq<byte>)
    ensures Report(fname, s, Pieces(f)) == Report(fname, s, LinesOf(f)) <==> Selected(Pieces(f), s) == Selected(LinesOf(f), s)
  {
    if Report(fname, s, Pieces(f)) == Report(fname, s, LinesOf(f)) {
      SelectedHaveNoNewline(f, s);
      RenderInjective(fname, Selected(Pieces(f), s), Selected(LinesOf(f), s));
    }
  }

  /** Nothing is printed exactly when no line contains the pattern. */
  lemma EmptyReportIff(fname: seq<byte>, s: seq<byte>, lines: seq<seq<byte>>)
    ensures Report(fname, s, lines) == [] <==> forall l :: l in lines ==> !Hits(l, s)
  {
    var sel := Selected(lines, s);
    forall l
      ensures l in sel <==> l in lines && Hits(l, s)
    {
      SelectedIn(lines, s, l);
    }
    if sel != [] {
      assert sel[0] in sel;
    }
  }

  // ---- Reading lines and output back ---------------------------------------------------

  /** Lines written one after the other, each with a newline. */
  function Written(lines: seq<seq<byte>>): seq<byte> {
    if lines == [] then [] else lines[0] + [NEWLINE] + Written(lines[1..])
  }

  /** Writing the lines of a file gives the file back; only the newline after a last line without one is new. */
  lemma {:induction false} LinesAreTheFile(f: seq<byte>)
    ensures Written(LinesOf(f)) == if f == [] || f[|f| - 1] == NEWLINE then f else f + [NEWLINE]
    decreases |f|
  {
    var k := Find(f, NEWLINE);
    if f != [] && k < |f| {
      var l, rest := f[..k], f[k + 1..];
      LinesAreTheFile(rest);
      WrittenCons(l, LinesOf(rest));
      SplitAt(f, k);
      assert rest != [] ==> rest[|rest| - 1] == f[|f| - 1];
      assert l + [NEWLINE] + (rest + [NEWLINE]) == l + [NEWLINE] + rest + [NEWLINE];
    } else if f != [] {
      WrittenCons(f, []);
      assert [f] + [] == [f] && f + [NEWLINE] + [] == f + [NEWLINE];
    }
  }

  lemma WrittenCons(l: seq<byte>, lines: seq<seq<byte>>)
    ensures Written([l] + lines) == l + [NEWLINE] + Written(lines)
  {
    assert ([l] + lines)[1..] == lines;
  }

  lemma SplitAt(f: seq<byte>, k: nat)
    requires k < |f|
    ensures f == f[..k] + [f[k]] + f[k + 1..]
  {
  }

  /** A first line and the rest of a text. */
  lemma FirstLineIs(l: seq<byte>, rest: seq<byte>)
    requires NEWLINE !in l
    ensures var w := l + [NEWLINE] + rest; Find(w, NEWLINE) == |l| && w[..|l|] == l && w[|l| + 1..] == rest
  {
    var w := l + [NEWLINE] + rest;
    assert w[..|l|] == l;
    FindIs(w, NEWLINE, |l|);
  }

  /** The lines of what was written are the lines that were written. */
  lemma {:induction false} WrittenReadsBack(lines: seq<seq<byte>>)
    requires forall l :: l in lines ==> NEWLINE !in l
    ensures LinesOf(Written(lines)) == lines
  {
    if lines != [] {
      WrittenReadsBack(lines[1..]);
      FirstLineIs(lines[0], Written(lines[1..]));
    }
  }

  const COLON: byte := 58

  /** An output line, split at its first colon. */
  function Parsed(line: seq<byte>): (seq<byte>, seq<byte>) {
    var k := Find(line, COLON);
    (line[..k], if k < |line| then line[k + 1..] else [])
  }

  /** Reading grep's output: its lines, each split at its first colon. */
  function ReadOutput(out: seq<byte>): (r: seq<(seq<byte>, seq<byte>)>)
    ensures |r| == |LinesOf(out)|
  {
    seq(|LinesOf(out)|, i requires 0 <= i < |LinesOf(out)| => Parsed(LinesOf(out)[i]))
  }

  lemma EntryIsParsed(fname: seq<byte>, line: seq<byte>)
    requires COLON !in fname
    ensures Parsed(fname + [58] + line) == (fname, line)
  {
    var t := fname + [58] + line;
    FindIs(t, COLON, |fname|);
    assert t[..|fname|] == fname && t[|fname| + 1..] == line;
  }

  function Prefixed(fname: seq<byte>, lines: seq<seq<byte>>): (r: seq<seq<byte>>)
    ensures |r| == |lines| && forall i :: 0 <= i < |r| ==> r[i] == fname + [58] + lines[i]
  {
    seq(|lines|, i requires 0 <= i < |lines| => fname + [58] + lines[i])
  }

  lemma {:induction false} RenderIsWritten(fname: seq<byte>, lines: seq<seq<byte>>)
    ensures Render(fname, lines) == Written(Prefixed(fname, lines))
  {
    if lines != [] {
      RenderIsWritten(fname, lines[1..]);
      assert Prefixed(fname, lines)[1..] == Prefixed(fname, lines[1..]);
    }
  }

  /** Each line with the name of its file. */
  function Labelled(fname: seq<byte>, lines: seq<seq<byte>>): seq<(seq<byte>, seq<byte>)> {
    seq(|lines|, i requires 0 <= i < |lines| => (fname, lines[i]))
  }

  /** Reading the output back gives exactly the selected lines, in order, each with the name of the file. */
  lemma OutputReadsBack(fname: seq<byte>, lines: seq<seq<byte>>)
    requires NEWLINE !in fname && COLON !in fname && forall l :: l in lines ==> NEWLINE !in l
    ensures ReadOutput(Render(fname, lines)) == Labelled(fname, lines)
  {
    var p := Prefixed(fname, lines);
    forall l | l in p
      ensures NEWLINE !in l
    {
      var i :| 0 <= i < |p| && p[i] == l;
      assert lines[i] in lines;
    }
    RenderIsWritten(fname, lines);
    WrittenReadsBack(p);
    forall i | 0 <= i < |lines|
      ensures Parsed(p[i]) == (fname, lines[i])
    {
      EntryIsParsed(fname, lines[i]);
    }
  }

  lemma FirstColon(fname: seq<byte>, lines: seq<seq<byte>>)
    requires lines != [] && COLON !in fname
    ensures Find(Render(fname, lines), 58) == |fname|
  {
    var out := Render(fname, lines);
    assert out[..|fname|] == fname && out[|fname|] == 58;
    FindIs(out, 58, |fname|);
  }

  /** Neither the pieces nor the lines that are selected contain a newline. */
  lemma SelectedHaveNoNewline(f: seq<byte>, s: seq<byte>)
    ensures forall l :: l in Selected(Pieces(f), s) || l in Selected(LinesOf(f), s) ==> NEWLINE !in l
  {
    forall l | l in Selected(Pieces(f), s) || l in Selected(LinesOf(f), s)
      ensures NEWLINE !in l
    {
      SelectedIn(Pieces(f), s, l);
      SelectedIn(LinesOf(f), s, l);
      NoNewline(f, l);
    }
  }
}
