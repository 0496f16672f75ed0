/** What a console means: an unbounded tape of cells, 80 to a row, of which the
    last 25 rows are on the screen. Wrapping and scrolling disappear here: a
    character goes to the cell under the cursor and the cursor moves on by one. */
module Document {
  import opened Bytes

  /** `top` is the first row on the screen, `pos` the cell under the cursor. */
  datatype Doc = Doc(tape: seq<byte>, top: nat, pos: nat) {
    predicate Valid() {
      |tape| == COLS * top + SCREEN && COLS * top <= pos < |tape|
    }
  }

  function Blanks(n: nat): (r: seq<byte>)
    ensures |r| == n
  {
    seq(n, i => SPACE)
  }

  const EMPTY := Doc(Blanks(SCREEN), 0, 0)

  /** A scroll: one more blank row, with the cursor at its start. */
  function Scrolled(tape: seq<byte>, top: nat): Doc {
    Doc(tape + Blanks(COLS), top + 1, |tape|)
  }

  /** Moving the cursor to `p`; past the last row, the screen scrolls. */
  function MoveTo(tape: seq<byte>, top: nat, p: nat): Doc {
    if p < |tape| then Doc(tape, top, p) else Scrolled(tape, top)
  }

  predicate IsControl(c: byte) {
    c == NEWLINE || c == RETURN || c == TAB || c == BACKSPACE
  }

  /** The effect of one byte. A tab that would leave the last row lands at the start of the new row. */
  function Step(d: Doc, c: byte): (r: Doc)
    requires d.Valid()
    ensures r.Valid()
  {
    if c == NEWLINE || c == RETURN then
      MoveTo(d.tape, d.top, COLS * (d.pos / COLS + 1))
    else if c == TAB then
      MoveTo(d.tape, d.top, if d.pos % COLS < COLS - 8 then d.pos + 8 else COLS * (d.pos / COLS + 1) + 8)
    else if c == BACKSPACE then
      var p := if d.pos > COLS * d.top then d.pos - 1 else d.pos;
      Doc(d.tape[p := SPACE], d.top, p)
    else
      MoveTo(d.tape[d.pos := c], d.top, d.pos + 1)
  }

  /** The effect of a byte string. */
  function Run(d: Doc, s: seq<byte>): (r: Doc)
    requires d.Valid()
    ensures r.Valid()
  {
    if s == [] then d else Step(Run(d, s[..|s| - 1]), s[|s| - 1])
  }

  lemma RunSnoc(d: Doc, s: seq<byte>, n: nat)
    requires d.Valid() && n < |s|
    ensures Run(d, s[..n + 1]) == Step(Run(d, s[..n]), s[n])
  {
    assert s[..n + 1][..n] == s[..n];
  }

  lemma {:induction false} RunConcat(d: Doc, s: seq<byte>, t: seq<byte>)
    requires d.Valid()
    ensures Run(d, s + t) == Run(Run(d, s), t)
  {
    if t == [] {
      assert s + t == s;
    } else {
      RunConcat(d, s, t[..|t| - 1]);
      assert (s + t)[..|s + t| - 1] == s + t[..|t| - 1];
    }
  }

  /** Backspace undoes a character, even when the character wrapped or scrolled: the
      cursor is back on its cell, that cell is blank, and nothing else differs. */
  lemma BackspaceUndoes(d: Doc, c: byte)
    requires d.Valid() && !IsControl(c)
    ensures var r := Step(Step(d, c), BACKSPACE);
      && r.pos == d.pos
      && r.tape[..|d.tape|] == d.tape[d.pos := SPACE]
      && (r.tape == r.tape[..|d.tape|] || r.tape == r.tape[..|d.tape|] + Blanks(COLS))
      && (r.top == d.top || d.pos + 1 == |d.tape|)
  {
    var e := Step(d, c);
    var r := Step(e, BACKSPACE);
    assert e.pos == d.pos + 1;
    if d.pos + 1 < |d.tape| {
      assert e.tape == d.tape[d.pos := c];
    } else {
      assert e.tape == d.tape[d.pos := c] + Blanks(COLS);
    }
    assert r.tape[..|d.tape|] == d.tape[d.pos := SPACE];
  }

  /** A tab that wraps lands in column 8 if and only if it does not leave the last row on the screen: there the
      scroll puts it in column 0. */
  lemma WrappingTabColumn(d: Doc)
    requires d.Valid() && d.pos % COLS >= COLS - 8
    ensures Step(d, TAB).pos % COLS == 8 <==> d.pos < |d.tape| - COLS
    ensures Step(d, TAB).pos % COLS == 0 <==> d.pos >= |d.tape| - COLS
    ensures Step(d, TAB).pos / COLS == d.pos / COLS + 1 && Step(d, TAB).tape[..|d.tape|] == d.tape
  {
    var q, rows := d.pos / COLS, d.top + 25;
    assert |d.tape| == COLS * rows && |d.tape| % COLS == 0;
    assert d.pos < |d.tape| - COLS <==> q + 1 < rows;
    var p := COLS * (q + 1) + 8;
    assert p % COLS == 8 && (p < |d.tape| <==> q + 1 < rows);
    assert Step(d, TAB).pos == if q + 1 < rows then p else |d.tape|;
  }

  /** Rows that have scrolled off the screen never change again, and scrolling is never undone. */
  lemma {:induction false} ScrolledRowsAreFinal(d: Doc, s: seq<byte>)
    requires d.Valid()
    ensures d.top <= Run(d, s).top
    ensures Run(d, s).tape[..COLS * d.top] == d.tape[..COLS * d.top]
  {
    if s != [] {
      var e := Run(d, s[..|s| - 1]);
      ScrolledRowsAreFinal(d, s[..|s| - 1]);
      assert Step(e, s[|s| - 1]).tape[..COLS * d.top] == e.tape[..COLS * d.top];
    }
  }

  /** Text without control bytes appears in consecutive cells from the cursor on,
      however often it wraps or scrolls, and leaves every earlier cell alone. */
  lemma {:induction false} TextIsConsecutive(d: Doc, s: seq<byte>)
    requires d.Valid() && forall c :: c in s ==> !IsControl(c)
    ensures var r := Run(d, s);
      && r.pos == d.pos + |s|
      && r.tape[..r.pos] == d.tape[..d.pos] + s
  {
    if s != [] {
      var e := Run(d, s[..|s| - 1]);
      TextIsConsecutive(d, s[..|s| - 1]);
      var r := Step(e, s[|s| - 1]);
      assert !IsControl(s[|s| - 1]);
      assert r.tape[..r.pos] == e.tape[..e.pos] + [s[|s| - 1]];
      assert s == s[..|s| - 1] + [s[|s| - 1]];
    } else {
      assert d.tape[..d.pos] + s == d.tape[..d.pos];
    }
  }

  /** A newline or carriage return goes to column 0 of the next row and keeps every cell; on the last row of the screen
      that row is new and blank. */
  lemma NewlineStartsRow(d: Doc, c: byte)
    requires d.Valid() && (c == 10 || c == 13)
    ensures var r := Step(d, c);
      && r.pos % 80 == 0 && r.pos / 80 == d.pos / 80 + 1
      && if d.pos / 80 + 1 < d.top + 25 then r.tape == d.tape && r.top == d.top
         else r.tape == d.tape + Blanks(80) && r.top == d.top + 1
  {
    var q, rows := d.pos / 80, d.top + 25;
    assert |d.tape| == 80 * rows && q < rows;
    assert 80 * (q + 1) < |d.tape| <==> q + 1 < rows;
    assert q + 1 >= rows ==> 80 * (q + 1) == |d.tape|;
  }

  /** Text, a newline and more text: the second text stands in consecutive cells from the start of the row after the one
      where the first one ended, and the first text and every cell before it are still there. */
  lemma TextOnTwoRows(d: Doc, a: seq<byte>, c: byte, b: seq<byte>)
    requires d.Valid() && (c == 10 || c == 13) && forall x :: x in a || x in b ==> !IsControl(x)
    ensures var r, start := Run(d, a + [c] + b), 80 * ((d.pos + |a|) / 80 + 1);
      && r.pos == start + |b| <= |r.tape| && r.tape[start..r.pos] == b
      && d.pos + |a| < start && r.tape[..d.pos + |a|] == d.tape[..d.pos] + a
  {
    var e, n, r := Run(d, a), Step(Run(d, a), c), Run(d, a + [c] + b);
    RunThree(d, a, c, b);
    TextIsConsecutive(d, a);
    NewlineStartsRow(e, c);
    TextIsConsecutive(n, b);
    SplitTape(r.tape, r.pos, n.tape[..n.pos], b, e.pos);
    assert n.tape[..n.pos][..e.pos] == e.tape[..e.pos];
  }

  lemma RunThree(d: Doc, a: seq<byte>, c: byte, b: seq<byte>)
    requires d.Valid()
    ensures Run(d, a + [c] + b) == Run(Step(Run(d, a), c), b)
  {
    assert (a + [c])[..|a|] == a;
    RunConcat(d, a + [c], b);
  }

  lemma SplitTape(tape: seq<byte>, pos: nat, before: seq<byte>, text: seq<byte>, k: nat)
    requires pos <= |tape| && tape[..pos] == before + text && k <= |before|
    ensures tape[|before|..pos] == text && tape[..k] == before[..k]
  {
    assert tape[|before|..pos] == tape[..pos][|before|..];
    assert tape[..k] == tape[..pos][..k];
  }

  /** A tab that does not wrap moves by exactly 8 columns and changes no cell. */
  lemma NarrowTab(d: Doc)
    requires d.Valid() && d.pos % 80 < 72
    ensures Step(d, 9) == Doc(d.tape, d.top, d.pos + 8)
  {
    var q, rows := d.pos / 80, d.top + 25;
    assert |d.tape| == 80 * rows && q < rows;
  }

  /** Backspace blanks the cell before the cursor and goes there; at the top left of the screen it stays. */
  lemma BackspaceErases(d: Doc)
    requires d.Valid()
    ensures var p := if d.pos == 80 * d.top then d.pos else d.pos - 1; Step(d, 8) == Doc(d.tape[p := 32], d.top, p)
  {
  }
}
