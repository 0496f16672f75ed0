/** The console of student-distrib/lib.c and its multiplexing over three
    terminals (student-distrib/terminal.c, systemcalls.c).

    `mem` is the 16 KB of physical memory from VIDEO (0xB8000) on: the video
    memory itself and the 4 KB store of each terminal, VIDEO + 4 KB * (t + 1). */
module Terminals {
  import opened Bytes
  import opened Document
  import opened Keyboard
  import Memory

  const ATTRIB: byte := 7
  const ROWS := 25
  const FOUR_KB := 4096
  const BUFF_SIZE := 128

  /** The saved cursor of a terminal (`terminal_t`). */
  datatype Cursor = Cursor(x: int, y: int)

  /** The keyboard fields of `terminal_t`. */
  datatype Keys = Keys(buffer: seq<byte>, bufferIndex: int, readIndex: int, readFlag: bool) {
    predicate Valid() {
      |buffer| == BUFF_SIZE && 0 <= bufferIndex <= BUFF_SIZE && 0 <= readIndex <= BUFF_SIZE + 1
    }
  }

  function NoKeys(): Keys {
    Keys(seq(BUFF_SIZE, i => NUL), 0, 0, false)
  }

  /** The byte at offset `j` of a screen image: characters at even offsets, attributes at odd ones. */
  function Pixel(d: Doc, j: nat): byte
    requires d.Valid() && j < 2 * SCREEN
  {
    if j % 2 == 0 then d.tape[COLS * d.top + j / 2] else ATTRIB
  }

  function Store(t: nat): nat {
    FOUR_KB * (t + 1)
  }

  /** A 4 KB region holds the image of a document. */
  ghost predicate Paints(mem: array<byte>, at: nat, d: Doc)
    reads mem
  {
    at + FOUR_KB <= mem.Length && d.Valid() && forall a :: at <= a < at + 2 * SCREEN ==> mem[a] == Pixel(d, a - at)
  }

  /** A 4 KB region and a cursor show a document. */
  ghost predicate Shows(mem: array<byte>, at: nat, x: int, y: int, d: Doc)
    reads mem
  {
    && Paints(mem, at, d)
    && 0 <= x < COLS && 0 <= y < ROWS && d.pos == COLS * d.top + COLS * y + x
  }

  lemma ScrolledPixel(d: Doc, j: nat)
    requires d.Valid() && j < 2 * SCREEN
    ensures Pixel(Scrolled(d.tape, d.top), j) ==
            if j % 2 == 1 then ATTRIB else if j < 2 * (SCREEN - COLS) then Pixel(d, j + 2 * COLS) else SPACE
  {
  }

  /** The bytes that terminal_write prints. */
  function NonNul(s: seq<byte>): (r: seq<byte>) {
    if s == [] then [] else
    var rest := NonNul(s[..|s| - 1]);
    if s[|s| - 1] == NUL then rest else rest + [s[|s| - 1]]
  }

  /** These are the bytes of the buffer that are not NUL, in order: text without NULs is printed as it is, NULs are left
      out wherever they stand. */
  lemma {:induction false} NonNulKeeps(s: seq<byte>, t: seq<byte>)
    ensures NUL !in NonNul(s) && (NUL !in s ==> NonNul(s) == s)
    ensures NonNul(s + [NUL] + t) == NonNul(s + t) == NonNul(s) + NonNul(t)
    decreases |s|, |t|
  {
    NonNulConcat(s, t);
    NonNulConcat(s + [NUL], t);
    assert (s + [NUL])[..|s|] == s;
    if s != [] {
      var n := |s| - 1;
      NonNulKeeps(s[..n], []);
      assert s == s[..n] + [s[n]];
    }
  }

  lemma {:induction false} NonNulConcat(s: seq<byte>, t: seq<byte>)
    ensures NonNul(s + t) == NonNul(s) + NonNul(t)
  {
    if t == [] {
      assert s + t == s;
    } else {
      var n := |t| - 1;
      NonNulConcat(s, t[..n]);
      assert (s + t)[..|s + t| - 1] == s + t[..n];
    }
  }

  /** One byte of terminal_write. */
  function Printed(d: Doc, c: byte): (r: Doc)
    requires d.Valid()
    ensures r.Valid()
  {
    if c == NUL then d else Step(d, c)
  }

  lemma PrintedIsRun(d: Doc, c: byte)
    requires d.Valid()
    ensures Run(d, NonNul([c])) == Printed(d, c)
  {
    assert NonNul([]) == [] && NonNul([c]) == if c == NUL then [] else [c];
    assert Run(d, [c]) == Step(Run(d, []), c);
  }

  /** What reaches the screen: a byte for the visible console, or a switch to another terminal. */
  datatype Event = Write(c: byte) | Switch(terminal: nat)

  /** The terminal visible after `events`, when `a` was visible before. */
  function VisibleAfter(events: seq<Event>, a: int): int {
    if events == [] then a else
    match events[|events| - 1]
    case Write(_) => VisibleAfter(events[..|events| - 1], a)
    case Switch(t) => t
  }

  /** The bytes written while terminal `t` was visible. */
  function WrittenTo(t: int, events: seq<Event>, a: int): seq<byte> {
    if events == [] then [] else
    var before := events[..|events| - 1];
    var w := WrittenTo(t, before, a);
    match events[|events| - 1]
    case Write(c) => if VisibleAfter(before, a) == t then w + [c] else w
    case Switch(_) => w
  }

  /** The line being edited. */
  function Line(k: Keys): (line: seq<byte>)
    requires k.Valid()
  {
    k.buffer[..k.bufferIndex]
  }

  /** The cells from `start` to the cursor are exactly the line being edited. */
  predicate Echoed(d: Doc, k: Keys, start: nat)
    requires d.Valid() && k.Valid()
  {
    COLS * d.top <= start && d.pos == start + k.bufferIndex && d.tape[start..d.pos] == Line(k)
  }

  /** A finished line waits for terminal_read. */
  predicate Readable(k: Keys, line: seq<byte>)
    requires k.Valid()
  {
    k.readFlag && k.readIndex <= BUFF_SIZE && k.buffer[..k.readIndex] == line
  }

  function Typed(k: Keys, c: byte): Keys
    requires k.Valid() && k.bufferIndex < BUFF_SIZE
  {
    k.(buffer := k.buffer[k.bufferIndex := c], bufferIndex := k.bufferIndex + 1)
  }

  /** Typing one text byte extends the line on both sides and leaves the cells before it alone. */
  lemma TypeEchoes(d: Doc, k: Keys, c: byte, start: nat)
    requires d.Valid() && k.Valid() && k.bufferIndex < BUFF_SIZE && Echoed(d, k, start)
    requires !IsControl(c) && c != NUL
    ensures var r := Printed(d, c);
      Echoed(r, Typed(k, c), start) && Line(Typed(k, c)) == Line(k) + [c] && d.tape[..start] <= r.tape
  {
    var r, tape := Step(d, c), d.tape[d.pos := c];
    assert r.pos == d.pos + 1 && (r.tape == tape || r.tape == tape + Blanks(COLS));
    SliceBeforeStore(d.tape, start, d.pos, d.pos, c);
    SliceBeforeStore(d.tape, 0, start, d.pos, c);
    assert r.tape[start..r.pos] == tape[start..d.pos] + [c];
    assert Line(Typed(k, c)) == Line(k) + [c];
  }

  /** Backspace drops the last byte on both sides: the cursor cannot leave the line. */
  lemma EraseEchoes(d: Doc, k: Keys, start: nat)
    requires d.Valid() && k.Valid() && k.bufferIndex > 0 && Echoed(d, k, start)
    ensures var r, k' := Step(d, BACKSPACE), k.(bufferIndex := k.bufferIndex - 1);
      Echoed(r, k', start) && Line(k') == Line(k)[..|Line(k)| - 1] && d.tape[..start] <= r.tape
  {
    var r := Step(d, BACKSPACE);
    assert r == Doc(d.tape[d.pos - 1 := SPACE], d.top, d.pos - 1);
    SliceBeforeStore(d.tape, start, d.pos - 1, d.pos - 1, SPACE);
    SliceOfSlice(d.tape, start, d.pos - 1, d.pos);
    SliceBeforeStore(d.tape, 0, start, d.pos - 1, SPACE);
    SliceOfSlice(k.buffer, 0, k.bufferIndex - 1, k.bufferIndex);
  }

  /** Enter leaves every cell of the line alone and starts an empty line further down. */
  lemma EnterEchoes(d: Doc, k: Keys, start: nat)
    requires d.Valid() && k.Valid() && Echoed(d, k, start)
    ensures var r, k' := Step(d, NEWLINE), k.(readIndex := k.bufferIndex, readFlag := true, bufferIndex := 0);
      Echoed(r, k', r.pos) && start <= r.pos && Line(k') == [] && d.tape[..start] <= r.tape && Readable(k', Line(k))
  {
    var r := Step(d, NEWLINE);
    assert r.tape == d.tape || r.tape == d.tape + Blanks(COLS);
    assert r.tape[r.pos..r.pos] == [];
  }

  /** What the keys of one terminal act on. */
  datatype Desk = Desk(d: Doc, k: Keys, mods: Mods) {
    predicate Valid() {
      d.Valid() && k.Valid()
    }
  }

  /** One action, on the document, the key buffer and the modifiers (a terminal switch acts elsewhere). */
  function Act(s: Desk, a: Action): (r: Desk)
    requires s.Valid()
    ensures r.Valid()
  {
    match a
    case SetMods(m) => s.(mods := m)
    case Return =>
      s.(d := Step(s.d, NEWLINE), k := s.k.(readIndex := s.k.bufferIndex, readFlag := true, bufferIndex := 0))
    case Tabulate => s.(d := Step(s.d, TAB))
    case Erase =>
      if s.k.bufferIndex == 0 then s
      else s.(d := Step(s.d, BACKSPACE), k := s.k.(bufferIndex := s.k.bufferIndex - 1))
    case Type(c) =>
      if s.k.bufferIndex == BUFF_SIZE then s else s.(d := Printed(s.d, c), k := Typed(s.k, c))
    case ClearScreen => s.(d := EMPTY)
    case Nothing => s
    case Show(_) => s
  }

  lemma ActType(s: Desk, c: byte)
    requires s.Valid()
    ensures Act(s, Type(c)) == if s.k.bufferIndex == BUFF_SIZE then s else Desk(Printed(s.d, c), Typed(s.k, c), s.mods)
  {
  }

  /** Where the line starts after an action: Enter starts a new one at the cursor. */
  function Start(s: Desk, a: Action, start: nat): nat
    requires s.Valid()
  {
    if a.Return? then Act(s, a).d.pos else start
  }

  /** While the line is echoed on the screen it stays so, it follows `Feed`, no cell before it changes,
      and Enter makes it readable. */
  lemma ActEchoes(s: Desk, a: Action, start: nat)
    requires s.Valid() && Echoed(s.d, s.k, start) && Edits(a)
    ensures var r := Act(s, a);
      && Echoed(r.d, r.k, Start(s, a, start)) && start <= Start(s, a, start)
      && Line(r.k) == Feed(Line(s.k), a)
      && s.d.tape[..start] <= r.d.tape
      && (a.Return? ==> Readable(r.k, Line(s.k)))
  {
    match a
    case Return =>
      EnterEchoes(s.d, s.k, start);
    case Erase =>
      if s.k.bufferIndex > 0 {
        EraseEchoes(s.d, s.k, start);
      }
    case Type(c) =>
      if s.k.bufferIndex < BUFF_SIZE {
        TypeEchoes(s.d, s.k, c, start);
      }
    case _ =>
  }

  function ActAll(s: Desk, actions: seq<Action>): (r: Desk)
    requires s.Valid()
    ensures r.Valid()
  {
    if actions == [] then s else Act(ActAll(s, actions[..|actions| - 1]), actions[|actions| - 1])
  }

  lemma ActAllStep(s: Desk, actions: seq<Action>, a: Action)
    requires s.Valid()
    ensures ActAll(s, actions + [a]) == Act(ActAll(s, actions), a)
    ensures ModsAfter(s.mods, actions + [a]) == if a.SetMods? then a.mods else ModsAfter(s.mods, actions)
  {
    assert (actions + [a])[..|actions|] == actions;
  }

  function LineStart(s: Desk, actions: seq<Action>, start: nat): nat
    requires s.Valid()
  {
    if actions == [] then start else
    var before := actions[..|actions| - 1];
    Start(ActAll(s, before), actions[|actions| - 1], LineStart(s, before, start))
  }

  /** The line discipline over every run of editing keys: the cells from the line start to the cursor are the
      line, the line is the one `Feed` computes, and nothing before the first line start ever changes. */
  lemma {:induction false} TypingIsEchoed(s: Desk, actions: seq<Action>, start: nat)
    requires s.Valid() && Echoed(s.d, s.k, start) && forall a :: a in actions ==> Edits(a)
    ensures var r := ActAll(s, actions);
      && Echoed(r.d, r.k, LineStart(s, actions, start)) && start <= LineStart(s, actions, start)
      && Line(r.k) == FeedAll(Line(s.k), actions)
      && s.d.tape[..start] <= r.d.tape
  {
    if actions != [] {
      var before := actions[..|actions| - 1];
      TypingIsEchoed(s, before, start);
      ActEchoes(ActAll(s, before), actions[|actions| - 1], LineStart(s, before, start));
    }
  }

  class Console {
    const mem: array<byte>
    const terminal: array<Cursor>
    const keys: array<Keys>
    const keymap: Keymap
    var screenX: int
    var screenY: int
    var cursor: int    // the hardware cursor set by update_cursor
    var active: int
    var mods: Mods
    ghost var docs: seq<Doc>

    ghost predicate Valid()
      reads this, mem, terminal
    {
      && mem.Length == 4 * FOUR_KB && terminal.Length == 3 && |docs| == 3
      && 0 <= active < 3
      && Shows(mem, 0, screenX, screenY, docs[active])
      && cursor == COLS * screenY + screenX
      && forall t :: 0 <= t < 3 && t != active ==> Shows(mem, Store(t), terminal[t].x, terminal[t].y, docs[t])
    }

    /** Where the characters are: two bytes a cell, 80 cells a row, 25 rows; the visible terminal at the start of video
        memory, the others 4 KB apart behind it. */
    lemma CellAt(t: int, row: nat, col: nat)
      requires Valid() && 0 <= t < 3 && row < 25 && col < 80
      ensures var at, d := if t == active then 0 else 4096 * (t + 1), docs[t];
        && |d.tape| == 80 * (d.top + 25)
        && mem[at + 2 * (80 * row + col)] == d.tape[80 * (d.top + row) + col]
        && mem[at + 2 * (80 * row + col) + 1] == 7
        && (t == active ==> d.pos == 80 * (d.top + screenY) + screenX && cursor == 80 * screenY + screenX)
    {
      var at, d, j := if t == active then 0 else 4096 * (t + 1), docs[t], 2 * (80 * row + col);
      assert mem[at + j] == Pixel(d, j) && mem[at + (j + 1)] == Pixel(d, j + 1);
      assert j / 2 == 80 * row + col;
    }

    ghost predicate Keyed()
      reads keys
    {
      keys.Length == 3 && forall t :: 0 <= t < 3 ==> keys[t].Valid()
    }

    /** Start-up: terminal_open clears the three stores but not the screen, so terminal 0 is visible and shows the
        characters `left` there, in the attribute ATTRIB; the cursor is at the top. Terminals 1 and 2 are empty. */
    constructor (left: seq<byte>)
      requires |left| == SCREEN
      ensures Valid() && Keyed() && fresh(mem) && fresh(terminal) && fresh(keys)
      ensures keymap == Keypress && active == 0 && docs == [Doc(left, 0, 0), EMPTY, EMPTY] && mods == Mods(false, false, false, false)
    {
      mem := new byte[4 * FOUR_KB](i requires 0 <= i => if i < 2 * SCREEN && i % 2 == 0 then left[i / 2] else ATTRIB);
      terminal := new Cursor[3](i => Cursor(0, 0));
      keys := new Keys[3](i => NoKeys());
      keymap := Keypress;
      screenX, screenY, cursor, active := 0, 0, 0, 0;
      mods := Mods(false, false, false, false);
      docs := [Doc(left, 0, 0), EMPTY, EMPTY];
      new;
      TerminalOpen();
    }

    /** The blanking loop of clear and of terminal_open. */
    method BlankPage(at: nat)
      requires at + 2 * SCREEN <= mem.Length
      modifies mem
      ensures forall a :: 0 <= a < mem.Length ==>
        mem[a] == if !(at <= a < at + 2 * SCREEN) then old(mem[a]) else if (a - at) % 2 == 0 then SPACE else ATTRIB
    {
      for i := 0 to SCREEN
        invariant forall a :: 0 <= a < mem.Length ==>
          mem[a] == if !(at <= a < at + 2 * i) then old(mem[a]) else if (a - at) % 2 == 0 then SPACE else ATTRIB
      {
        mem[at + 2 * i] := SPACE;
        mem[at + 2 * i + 1] := ATTRIB;
      }
    }

    /** terminal_open: every store blank, every terminal record reset; the video page is not touched. */
    method TerminalOpen()
      requires mem.Length == 4 * FOUR_KB && terminal.Length == keys.Length == 3
      modifies mem, terminal, keys
      ensures forall t :: 0 <= t < 3 ==>
        Shows(mem, Store(t), 0, 0, EMPTY) && terminal[t] == Cursor(0, 0) && keys[t] == NoKeys()
      ensures forall a :: 0 <= a < FOUR_KB ==> mem[a] == old(mem[a])
    {
      for j := 0 to 3
        invariant forall t :: 0 <= t < j ==>
          Shows(mem, Store(t), 0, 0, EMPTY) && terminal[t] == Cursor(0, 0) && keys[t] == NoKeys()
        invariant forall a :: 0 <= a < FOUR_KB ==> mem[a] == old(mem[a])
      {
        BlankPage(Store(j));
        terminal[j] := Cursor(0, 0);
        keys[j] := NoKeys();
      }
    }

    /** The loops of scroll_up: each row takes the characters of the next one, the last row becomes blank. */
    method ScrollCells()
      requires mem.Length == 4 * FOUR_KB
      modifies mem
      ensures forall a :: 0 <= a < mem.Length ==>
        mem[a] == if a >= 2 * SCREEN then old(mem[a])
                  else if a % 2 == 1 then ATTRIB
                  else if a < 2 * (SCREEN - COLS) then old(mem[a + 2 * COLS]) else SPACE
    {
      for i := 0 to ROWS - 1
        invariant forall a :: 0 <= a < mem.Length ==>
          mem[a] == if a >= 2 * COLS * i then old(mem[a])
                    else if a % 2 == 1 then ATTRIB else old(mem[a + 2 * COLS])
      {
        CopyRow(i);
      }
      BlankRow();
    }

    /** Row `i` takes the characters of the next row. */
    method CopyRow(i: nat)
      requires mem.Length == 4 * FOUR_KB && i < ROWS - 1
      modifies mem
      ensures forall a :: 0 <= a < mem.Length ==>
        mem[a] == if !(2 * COLS * i <= a < 2 * COLS * (i + 1)) then old(mem[a])
                  else if a % 2 == 1 then ATTRIB else old(mem[a + 2 * COLS])
    {
      for j := 0 to COLS
        invariant forall a :: 0 <= a < mem.Length ==>
          mem[a] == if !(2 * COLS * i <= a < 2 * (COLS * i + j)) then old(mem[a])
                    else if a % 2 == 1 then ATTRIB else old(mem[a + 2 * COLS])
      {
        mem[2 * (COLS * i + j)] := mem[2 * (COLS * (i + 1) + j)];
        mem[2 * (COLS * i + j) + 1] := ATTRIB;
      }
    }

    /** The last row becomes blank. */
    method BlankRow()
      requires mem.Length == 4 * FOUR_KB
      modifies mem
      ensures forall a :: 0 <= a < mem.Length ==>
        mem[a] == if !(2 * (SCREEN - COLS) <= a < 2 * SCREEN) then old(mem[a]) else if a % 2 == 1 then ATTRIB else SPACE
    {
      for j := 0 to COLS
        invariant forall a :: 0 <= a < mem.Length ==>
          mem[a] == if !(2 * (SCREEN - COLS) <= a < 2 * (SCREEN - COLS + j)) then old(mem[a])
                    else if a % 2 == 1 then ATTRIB else SPACE
      {
        mem[2 * (COLS * (ROWS - 1) + j)] := SPACE;
        mem[2 * (COLS * (ROWS - 1) + j) + 1] := ATTRIB;
      }
    }

    /** scroll_up, in terms of the document. */
    method ScrollUp(ghost d: Doc)
      requires mem.Length == 4 * FOUR_KB && Paints(mem, 0, d)
      modifies this`screenX, this`screenY, mem
      ensures Shows(mem, 0, screenX, screenY, Scrolled(d.tape, d.top)) && StoresKept()
    {
      ScrollCells();
      screenX := 0;
      screenY := ROWS - 1;
      forall a | 0 <= a < 2 * SCREEN
        ensures mem[a] == Pixel(Scrolled(d.tape, d.top), a)
      {
        ScrolledPixel(d, a);
      }
    }

    /** The memory behind the video page: every terminal's store. */
    twostate predicate StoresKept()
      reads mem
    {
      forall a :: FOUR_KB <= a < mem.Length ==> mem[a] == old(mem[a])
    }

    method HandleEnter(ghost d: Doc)
      requires mem.Length == 4 * FOUR_KB && Shows(mem, 0, screenX, screenY, d)
      modifies this`screenX, this`screenY, mem
      ensures Shows(mem, 0, screenX, screenY, Step(d, NEWLINE)) && StoresKept()
      ensures screenX == 0 && screenY == if old(screenY) == ROWS - 1 then ROWS - 1 else old(screenY) + 1
    {
      screenY := screenY + 1;
      screenX := 0;
      if screenY == ROWS {
        ScrollUp(d);
      }
    }

    method HandleTab(ghost d: Doc)
      requires mem.Length == 4 * FOUR_KB && Shows(mem, 0, screenX, screenY, d)
      modifies this`screenX, this`screenY, mem
      ensures Shows(mem, 0, screenX, screenY, Step(d, TAB)) && StoresKept()
    {
      if screenX < COLS - 8 {
        screenX := screenX + 8;
      } else {
        screenY := screenY + 1;
        screenX := 8;
        if screenY == ROWS {
          ScrollUp(d);
        }
      }
    }

    method HandleBackspace(ghost d: Doc)
      requires mem.Length == 4 * FOUR_KB && Shows(mem, 0, screenX, screenY, d)
      modifies this`screenX, this`screenY, mem
      ensures Shows(mem, 0, screenX, screenY, Step(d, BACKSPACE)) && StoresKept()
    {
      if screenX > 0 {
        screenX := screenX - 1;
      } else if screenY > 0 {
        screenX := COLS - 1;
        screenY := screenY - 1;
      }
      StoreCell(SPACE, d.(pos := if d.pos > COLS * d.top then d.pos - 1 else d.pos));
    }

    method HandleNormalChar(c: byte, ghost d: Doc)
      requires mem.Length == 4 * FOUR_KB && Shows(mem, 0, screenX, screenY, d) && !IsControl(c)
      modifies this`screenX, this`screenY, mem
      ensures Shows(mem, 0, screenX, screenY, Step(d, c)) && StoresKept()
    {
      ghost var e := Doc(d.tape[d.pos := c], d.top, d.pos);
      StoreCell(c, d);
      if screenX == COLS - 1 {
        screenX := 0;
        screenY := screenY + 1;
        if screenY == ROWS {
          ScrollUp(e);
        }
      } else {
        screenX := screenX + 1;
      }
    }

    /** The character and attribute bytes of the cell under the cursor. */
    method StoreCell(c: byte, ghost d: Doc)
      requires mem.Length == 4 * FOUR_KB && Shows(mem, 0, screenX, screenY, d)
      modifies mem
      ensures Shows(mem, 0, screenX, screenY, Doc(d.tape[d.pos := c], d.top, d.pos)) && StoresKept()
    {
      mem[2 * (COLS * screenY + screenX)] := c;
      mem[2 * (COLS * screenY + screenX) + 1] := ATTRIB;
    }

    method UpdateCursor(x: int, y: int)
      requires 0 <= x < COLS && 0 <= y < ROWS
      modifies this`cursor
      ensures cursor == COLS * y + x
    {
      var position := y * COLS + x;
      var low, high := position % 256, position / 256 % 256;
      cursor := 256 * high + low;
    }

    /** putc: the visible console advances by one byte of its document; no other terminal changes. */
    method Putc(c: byte)
      requires Valid()
      modifies this`screenX, this`screenY, this`cursor, this`docs, mem
      ensures Valid() && docs == old(docs)[active := Step(old(docs)[active], c)]
    {
      ghost var d := docs[active];
      if c == NEWLINE || c == RETURN {
        HandleEnter(d);
      } else if c == TAB {
        HandleTab(d);
      } else if c == BACKSPACE {
        HandleBackspace(d);
      } else {
        HandleNormalChar(c, d);
      }
      UpdateCursor(screenX, screenY);
      docs := docs[active := Step(d, c)];
    }

    /** clear: the visible console starts over from the empty document. */
    method Clear()
      requires Valid()
      modifies this`screenX, this`screenY, this`cursor, this`docs, mem
      ensures Valid() && docs == old(docs)[active := EMPTY]
    {
      BlankPage(0);
      screenY := 0;
      screenX := 0;
      UpdateCursor(screenX, screenY);
      docs := docs[active := EMPTY];
    }

    /** puts: a C string, byte by byte. */
    method Puts(s: seq<byte>) returns (index: nat)
      requires Valid() && NUL in s
      modifies this`screenX, this`screenY, this`cursor, this`docs, mem
      ensures Valid() && index == |CString(s)|
      ensures docs == old(docs)[active := Run(old(docs)[active], CString(s))]
    {
      index := PutBytes(s, Find(s, NUL));
    }

    /** The loop of puts, on a string that ends at `n`. */
    method PutBytes(s: seq<byte>, ghost n: nat) returns (index: nat)
      requires Valid() && n < |s| && s[n] == NUL && forall i :: 0 <= i < n ==> s[i] != NUL
      modifies this`screenX, this`screenY, this`cursor, this`docs, mem
      ensures Valid() && index == n && docs == old(docs)[active := Run(old(docs)[active], s[..n])]
    {
      ghost var d := docs[active];
      index := 0;
      while s[index] != NUL
        invariant 0 <= index <= n && Valid() && docs == old(docs)[active := Run(d, s[..index])]
        decreases n - index
      {
        RunSnoc(d, s, index);
        Putc(s[index]);
        index := index + 1;
      }
    }

    method CopyPage(to: nat, from: nat)
      requires to + FOUR_KB <= mem.Length && from + FOUR_KB <= mem.Length
      requires to + FOUR_KB <= from || from + FOUR_KB <= to
      modifies mem
      ensures forall a :: 0 <= a < mem.Length ==>
        mem[a] == if to <= a < to + FOUR_KB then old(mem[from + a - to]) else old(mem[a])
    {
      ghost var m := mem[..];
      Memory.Memcpy(mem, 0, to, from, FOUR_KB);
      assert forall a :: 0 <= a < mem.Length ==> mem[a] == mem[..][a];
    }

    /** A page copy carries the image of `d` along and leaves the images on two other pages alone. */
    method CopyImage(to: nat, from: nat, ghost p: nat, ghost q: nat, ghost d: Doc, ghost dp: Doc, ghost dq: Doc)
      requires to + FOUR_KB <= mem.Length && Paints(mem, from, d) && Paints(mem, p, dp) && Paints(mem, q, dq)
      requires (to + FOUR_KB <= from || from + FOUR_KB <= to) && (to + FOUR_KB <= p || p + FOUR_KB <= to)
      requires to + FOUR_KB <= q || q + FOUR_KB <= to
      modifies mem
      ensures Paints(mem, to, d) && Paints(mem, p, dp) && Paints(mem, q, dq)
    {
      CopyPage(to, from);
      assert forall a :: to <= a < to + 2 * SCREEN ==> mem[a] == Pixel(d, a - to);
    }

    /** The two copies of a switch: the video page goes to the store of `from`, the store of `to` to the video page. */
    method SwapPages(from: int, to: int, ghost docs: seq<Doc>)
      requires mem.Length == 4 * FOUR_KB && |docs| == 3 && 0 <= from < 3 && 0 <= to < 3 && from != to
      requires Paints(mem, 0, docs[from])
      requires forall t :: 0 <= t < 3 && t != from ==> Paints(mem, Store(t), docs[t])
      modifies mem
      ensures Paints(mem, 0, docs[to])
      ensures forall t :: 0 <= t < 3 && t != to ==> Paints(mem, Store(t), docs[t])
    {
      ghost var other := 3 - from - to;
      CopyImage(Store(from), 0, Store(to), Store(other), docs[from], docs[to], docs[other]);
      CopyImage(0, Store(to), Store(from), Store(other), docs[to], docs[from], docs[other]);
    }

    /** save_and_switch_term: only which console is shown changes. */
    method SaveAndSwitch(newActive: int)
      requires Valid() && 0 <= newActive < 3
      modifies this`screenX, this`screenY, this`cursor, this`active, mem, terminal
      ensures Valid() && active == newActive
    {
      if newActive == active {
        return;
      }
      SwapPages(active, newActive, docs);
      terminal[active] := terminal[active].(y := screenY);
      terminal[active] := terminal[active].(x := screenX);
      screenY := terminal[newActive].y;
      screenX := terminal[newActive].x;
      UpdateCursor(screenX, screenY);
      active := newActive;
    }

    /** terminal_write on the running, visible terminal: NUL bytes are skipped, and nothing at
        all is printed while a full line of 128 keys waits for Enter. */
    method TerminalWrite(buffer: seq<byte>, nbytes: int) returns (r: int)
      requires Valid() && Keyed() && nbytes <= |buffer|
      modifies this`screenX, this`screenY, this`cursor, this`docs, mem
      ensures Valid()
      ensures r == if nbytes < 0 then -1 else if keys[active].bufferIndex == BUFF_SIZE then 0 else nbytes
      ensures r <= 0 ==> docs == old(docs)
      ensures r > 0 ==> docs == old(docs)[active := Run(old(docs)[active], NonNul(buffer[..nbytes]))]
    {
      if nbytes < 0 {
        return -1;
      } else if keys[active].bufferIndex == BUFF_SIZE {
        return 0;
      }
      for i := 0 to nbytes
        invariant Valid() && docs == old(docs)[active := Run(old(docs)[active], NonNul(buffer[..i]))]
      {
        assert buffer[..i + 1][..i] == buffer[..i];
        if buffer[i] != NUL {
          Putc(buffer[i]);
        }
      }
      return nbytes;
    }

    /** For every interleaving of output and switches, each terminal's document is the fold of
        exactly the bytes written while it was visible. */
    method Play(events: seq<Event>)
      requires Valid() && forall e :: e in events && e.Switch? ==> e.terminal < 3
      modifies this`screenX, this`screenY, this`cursor, this`docs, this`active, mem, terminal
      ensures Valid() && active == VisibleAfter(events, old(active))
      ensures forall t :: 0 <= t < 3 ==> docs[t] == Run(old(docs)[t], WrittenTo(t, events, old(active)))
    {
      ghost var d0, a0 := docs, active;
      for i := 0 to |events|
        invariant Valid() && active == VisibleAfter(events[..i], a0)
        invariant forall t :: 0 <= t < 3 ==> docs[t] == Run(d0[t], WrittenTo(t, events[..i], a0))
      {
        assert events[..i + 1][..i] == events[..i];
        match events[i] {
          case Write(c) =>
            Putc(c);
          case Switch(t) =>
            SaveAndSwitch(t);
        }
      }
      assert events[..|events|] == events;
    }

    // ---- The line discipline -------------------------------------------------
    // The members below speak of the time while the running terminal is the visible one.

    /** The whole effect of an action. */
    twostate predicate Performed(a: Action)
      requires old(Valid() && Keyed())
      reads this, mem, terminal, keys
    {
      var r, t := Act(old(Visible()), a), old(active);
      && active == (if a.Show? then a.terminal else t)
      && docs == old(docs)[t := r.d] && mods == r.mods
      && keys.Length == 3 && keys[t] == r.k && forall u :: 0 <= u < 3 && u != t ==> keys[u] == old(keys[u])
    }

    /** ENTER: the line becomes readable and a new, empty line starts at the cursor. */
    method KeyEnter()
      requires Valid() && Keyed()
      modifies this`screenX, this`screenY, this`cursor, this`docs, mem, keys
      ensures Valid() && Keyed() && Performed(Return)
    {
      Putc(NEWLINE);
      keys[active] := keys[active].(readIndex := keys[active].bufferIndex);
      keys[active] := keys[active].(readFlag := true);
      keys[active] := keys[active].(bufferIndex := 0);
    }

    /** BACKSPACE, on a line that is not empty, takes one byte off the line and off the screen. */
    method KeyBackspace()
      requires Valid() && Keyed()
      modifies this`screenX, this`screenY, this`cursor, this`docs, mem, keys
      ensures Valid() && Keyed() && Performed(Erase)
    {
      assert keys[active].bufferIndex >= 0;  // so the source's repair of a negative index never runs
      if keys[active].bufferIndex > 0 {
        Putc(BACKSPACE);
        keys[active] := keys[active].(bufferIndex := keys[active].bufferIndex - 1);
      }
    }

    method Echo(c: byte)
      requires Valid() && Keyed() && keys[active].bufferIndex < BUFF_SIZE
      modifies this`screenX, this`screenY, this`cursor, this`docs, mem
      ensures Valid() && docs == old(docs)[active := Printed(old(docs)[active], c)]
    {
      assert [c][..1] == [c];
      PrintedIsRun(docs[active], c);
      var _ := TerminalWrite([c], 1);
    }

    /** A character key is stored and echoed, unless the line is already 128 bytes long. */
    method KeyType(c: byte)
      requires Valid() && Keyed() && c != NUL
      modifies this`screenX, this`screenY, this`cursor, this`docs, mem, keys
      ensures Valid() && Keyed() && Performed(Type(c))
    {
      ActType(Visible(), c);
      if keys[active].bufferIndex < BUFF_SIZE {
        KeyStore(c);
      }
    }

    method KeyStore(c: byte)
      requires Valid() && Keyed() && keys[active].bufferIndex < BUFF_SIZE
      modifies this`screenX, this`screenY, this`cursor, this`docs, mem, keys
      ensures Valid() && Keyed() && docs == old(docs)[active := Printed(old(docs)[active], c)]
      ensures keys[active] == Typed(old(keys[active]), c)
      ensures forall u :: 0 <= u < 3 && u != active ==> keys[u] == old(keys[u])
    {
      var index := keys[active].bufferIndex;
      SetKeys(keys[active].(buffer := keys[active].buffer[index := c]));
      Echo(c);
      SetKeys(keys[active].(bufferIndex := index + 1));
    }

    method SetKeys(k: Keys)
      requires Valid() && Keyed() && k.Valid()
      modifies keys
      ensures Valid() && Keyed() && keys[active] == k && forall u :: 0 <= u < 3 && u != active ==> keys[u] == old(keys[u])
    {
      keys[active] := k;
    }

    /** Tab, a screen clear, a modifier, or no effect. */
    method KeyOther(a: Action)
      requires Valid() && Keyed() && (a.Tabulate? || a.ClearScreen? || a.SetMods? || a.Nothing?)
      modifies this`screenX, this`screenY, this`cursor, this`docs, this`mods, mem
      ensures Valid() && Keyed() && Performed(a)
    {
      if a.Tabulate? {
        Putc(TAB);
      } else if a.ClearScreen? {
        Clear();
      } else if a.SetMods? {
        mods := a.mods;
      }
    }

    /** Alt-F1..F3. */
    method KeyShow(t: nat)
      requires Valid() && Keyed() && t < 3
      modifies this`screenX, this`screenY, this`cursor, this`active, mem, terminal
      ensures Valid() && Keyed() && Performed(Show(t))
    {
      SaveAndSwitch(t);
    }

    /** keyboard_handler: the visible terminal's document, key buffer and modifiers take the step `Act`;
        with Alt held, F1..F3 only change which terminal is visible. */
    method KeyboardHandler(scancode: byte)
      requires Valid() && Keyed() && scancode != LEFT && scancode != RIGHT
      modifies this`screenX, this`screenY, this`cursor, this`docs, this`mods, this`active, mem, terminal, keys
      ensures Valid() && Keyed() && Performed(Classify(keymap, old(mods), scancode))
    {
      Perform(Classify(keymap, mods, scancode));
    }

    method Perform(a: Action)
      requires Valid() && Keyed() && (a.Show? ==> a.terminal < 3) && (a.Type? ==> a.c != NUL)
      modifies this`screenX, this`screenY, this`cursor, this`docs, this`mods, this`active, mem, terminal, keys
      ensures Valid() && Keyed() && Performed(a)
    {
      if a.Return? {
        KeyEnter();
      } else if a.Erase? {
        KeyBackspace();
      } else if a.Type? {
        KeyType(a.c);
      } else if a.Show? {
        KeyShow(a.terminal);
      } else {
        KeyOther(a);
      }
    }

    /** The visible terminal as the keys see it. */
    ghost function Visible(): (s: Desk)
      requires Valid() && Keyed()
      reads this, mem, terminal, keys
      ensures s.Valid()
    {
      Desk(docs[active], keys[active], mods)
    }

    /** terminal_read, once Enter has set the read flag. The requested length does not limit the copy. */
    method TerminalRead(buffer: array<byte>, nbytes: int, ghost line: seq<byte>) returns (r: int)
      requires Valid() && Keyed() && buffer != mem
      requires nbytes > 0 ==> Readable(keys[active], line) && |line| + 2 <= buffer.Length
      modifies buffer, keys
      ensures Valid() && Keyed()
      ensures nbytes <= 0 ==> r == (if nbytes < 0 then -1 else 0) && buffer[..] == old(buffer[..])
      ensures nbytes > 0 ==> r == |line| + 1 && buffer[..r + 1] == line + [NEWLINE, NUL] && !keys[active].readFlag
      ensures nbytes > 0 ==> forall j :: r < j < buffer.Length ==> buffer[j] == old(buffer[j])
    {
      if nbytes < 0 {
        return -1;
      } else if nbytes == 0 {
        return 0;
      }
      var n := keys[active].readIndex;
      for i := 0 to n
        modifies buffer
        invariant forall j :: 0 <= j < buffer.Length ==> buffer[j] == if j < i then line[j] else old(buffer[j])
      {
        buffer[i] := keys[active].buffer[i];
      }
      buffer[n] := NEWLINE;
      keys[active] := keys[active].(readIndex := n + 1);
      buffer[n + 1] := NUL;
      keys[active] := keys[active].(readFlag := false);
      return n + 1;
    }

    /** A run of editing keys, then Enter, then terminal_read: the reader gets exactly the edited line and a newline. */
    method ReadLine(scancodes: seq<byte>, ghost start: nat, buffer: array<byte>) returns (r: int)
      requires Valid() && Keyed() && buffer != mem && buffer.Length >= BUFF_SIZE + 2
      requires Echoed(docs[active], keys[active], start)
      requires LEFT !in scancodes && RIGHT !in scancodes
      requires forall a :: a in Actions(keymap, mods, scancodes) ==> Edits(a)
      modifies this`screenX, this`screenY, this`cursor, this`docs, this`mods, this`active, mem, terminal, keys, buffer
      ensures Valid() && Keyed() && active == old(active)
      ensures var line := FeedAll(old(Line(keys[active])), Actions(keymap, old(mods), scancodes));
        r == |line| + 1 && line + [NEWLINE, NUL] <= buffer[..]
    {
      ghost var s := Visible();
      ghost var actions := Actions(keymap, mods, scancodes);
      TypeKeys(scancodes);
      TypingIsEchoed(s, actions, start);
      r := EnterAndRead(buffer, LineStart(s, actions, start));
    }

    /** Enter and then terminal_read. */
    method EnterAndRead(buffer: array<byte>, ghost start: nat) returns (r: int)
      requires Valid() && Keyed() && buffer != mem && buffer.Length >= BUFF_SIZE + 2
      requires Echoed(docs[active], keys[active], start)
      modifies this`screenX, this`screenY, this`cursor, this`docs, this`mods, this`active, mem, terminal, keys, buffer
      ensures Valid() && Keyed() && active == old(active)
      ensures var line := old(Line(keys[active])); r == |line| + 1 && line + [NEWLINE, NUL] <= buffer[..]
    {
      ghost var line := Line(keys[active]);
      ActEchoes(Visible(), Return, start);
      KeyboardHandler(ENTER);
      r := TerminalRead(buffer, 1, line);
    }

    /** One more scan code of such a run. */
    method TypeKey(scancode: byte, ghost s: Desk, ghost before: seq<Action>)
      requires Valid() && Keyed() && scancode != LEFT && scancode != RIGHT && !Classify(keymap, mods, scancode).Show?
      requires s.Valid() && Visible() == ActAll(s, before) && mods == ModsAfter(s.mods, before)
      modifies this`screenX, this`screenY, this`cursor, this`docs, this`mods, this`active, mem, terminal, keys
      ensures Valid() && Keyed() && active == old(active)
      ensures var actions := before + [Classify(keymap, old(mods), scancode)];
        Visible() == ActAll(s, actions) && mods == ModsAfter(s.mods, actions)
    {
      ActAllStep(s, before, Classify(keymap, mods, scancode));
      KeyboardHandler(scancode);
    }

    /** A run of scan codes without a terminal switch takes the visible terminal through `Actions`. */
    method TypeKeys(scancodes: seq<byte>)
      requires Valid() && Keyed() && LEFT !in scancodes && RIGHT !in scancodes
      requires forall a :: a in Actions(keymap, mods, scancodes) ==> !a.Show?
      modifies this`screenX, this`screenY, this`cursor, this`docs, this`mods, this`active, mem, terminal, keys
      ensures Valid() && Keyed() && active == old(active)
      ensures Visible() == ActAll(old(Visible()), Actions(keymap, old(mods), scancodes))
    {
      ghost var s, all := Visible(), Actions(keymap, mods, scancodes);
      for i := 0 to |scancodes|
        invariant Valid() && Keyed() && active == old(active)
        invariant Visible() == ActAll(s, all[..i]) && mods == ModsAfter(s.mods, all[..i])
      {
        ActionAt(keymap, s.mods, scancodes, i);
        assert all[i] in all && all[..i + 1] == all[..i] + [all[i]];
        TypeKey(scancodes[i], s, all[..i]);
      }
      assert all[..|scancodes|] == all;
    }
  }
}
