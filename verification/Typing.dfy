/** Typing a text on the keyboard: which keys have to be pressed is written down here from the key caps of a US keyboard
    and its scan codes, not from the tables of the handler. */
module Typing {
  import opened Bytes
  import opened Document
  import opened Keyboard
  import opened Terminals

  predicate Printable(c: byte) {
    32 <= c < 127
  }

  predicate IsUpper(c: byte) {
    65 <= c <= 90
  }

  predicate IsLower(c: byte) {
    97 <= c <= 122
  }

  /** The key of a letter, A being 0. */
  function LetterKey(i: nat): byte
    requires i < 26
  {
    match i
    case 0 => 30 case 1 => 48 case 2 => 46 case 3 => 32 case 4 => 18 case 5 => 33 case 6 => 34
    case 7 => 35 case 8 => 23 case 9 => 36 case 10 => 37 case 11 => 38 case 12 => 50 case 13 => 49
    case 14 => 24 case 15 => 25 case 16 => 16 case 17 => 19 case 18 => 31 case 19 => 20 case 20 => 22
    case 21 => 47 case 22 => 17 case 23 => 45 case 24 => 21 case _ => 44
  }

  /** The key of a character that is not a letter, and whether it needs Shift. */
  function SymbolKey(c: byte): (byte, bool)
    requires Printable(c) && !IsUpper(c) && !IsLower(c)
  {
    if 49 <= c <= 57 then (c - 47, false) else
    match c as char
    case '0' => (11, false) case '-' => (12, false) case '=' => (13, false)
    case '!' => (2, true) case '@' => (3, true) case '#' => (4, true) case '$' => (5, true) case '%' => (6, true)
    case '^' => (7, true) case '&' => (8, true) case '*' => (9, true) case '(' => (10, true) case ')' => (11, true)
    case '_' => (12, true) case '+' => (13, true)
    case '[' => (26, false) case ']' => (27, false) case '{' => (26, true) case '}' => (27, true)
    case ';' => (39, false) case '\'' => (40, false) case '`' => (41, false) case '\\' => (43, false)
    case ':' => (39, true) case '"' => (40, true) case '~' => (41, true) case '|' => (43, true)
    case ',' => (51, false) case '.' => (52, false) case '/' => (53, false)
    case '<' => (51, true) case '>' => (52, true) case '?' => (53, true)
    case _ => (57, false)
  }

  /** The key of a character, and whether Shift has to be held: on letters Caps Lock turns that round. */
  function KeyOf(c: byte, caps: bool): (byte, bool)
    requires Printable(c)
  {
    if IsUpper(c) then (LetterKey(c - 65), !caps)
    else if IsLower(c) then (LetterKey(c - 97), caps)
    else SymbolKey(c)
  }

  /** Each letter is where a US keyboard has it, in all four tables. */
  lemma RegularLetters(i: nat)
    requires i < 26
    ensures Regular(LetterKey(i)) == 97 + i
  {
  }

  lemma CapsLetters(i: nat)
    requires i < 26
    ensures Caps(LetterKey(i)) == 65 + i
  {
  }

  lemma ShiftedLetters(i: nat)
    requires i < 26
    ensures Shifted(LetterKey(i)) == 65 + i
  {
  }

  lemma ShiftedCapsLetters(i: nat)
    requires i < 26
    ensures ShiftedCaps(LetterKey(i)) == 97 + i
  {
  }

  /** And so is every other character. */
  lemma RegularSymbols(c: byte)
    requires Printable(c) && !IsUpper(c) && !IsLower(c) && !SymbolKey(c).1
    ensures Regular(SymbolKey(c).0) == c
  {
  }

  lemma CapsSymbols(c: byte)
    requires Printable(c) && !IsUpper(c) && !IsLower(c) && !SymbolKey(c).1
    ensures Caps(SymbolKey(c).0) == c
  {
  }

  lemma ShiftedSymbols(c: byte)
    requires Printable(c) && !IsUpper(c) && !IsLower(c) && SymbolKey(c).1
    ensures Shifted(SymbolKey(c).0) == c
  {
  }

  lemma ShiftedCapsSymbols(c: byte)
    requires Printable(c) && !IsUpper(c) && !IsLower(c) && SymbolKey(c).1
    ensures ShiftedCaps(SymbolKey(c).0) == c
  {
  }

  lemma KeyRange(c: byte, caps: bool)
    requires Printable(c)
    ensures 2 <= KeyOf(c, caps).0 <= 57 && KeyOf(c, caps).0 !in {14, 15, 28, 29, 42, 54, 56}
  {
  }

  /** The key of a character gives that character. */
  lemma KeyTypes(c: byte, caps: bool)
    requires Printable(c)
    ensures var (k, shift) := KeyOf(c, caps); Keypress(Mods(shift, false, caps, false), k) == c
  {
    KeyRange(c, caps);
    if IsUpper(c) || IsLower(c) {
      var i := if IsUpper(c) then c - 65 else c - 97;
      RegularLetters(i);
      CapsLetters(i);
      ShiftedLetters(i);
      ShiftedCapsLetters(i);
    } else if !SymbolKey(c).1 {
      RegularSymbols(c);
      CapsSymbols(c);
    } else {
      ShiftedSymbols(c);
      ShiftedCapsSymbols(c);
    }
  }

  // ---- Runs of scan codes -----------------------------------------------------------------

  lemma ActionsSnoc(keymap: Keymap, m: Mods, codes: seq<byte>, k: byte)
    ensures Actions(keymap, m, codes + [k]) ==
            Actions(keymap, m, codes) + [Classify(keymap, ModsAfter(m, Actions(keymap, m, codes)), k)]
  {
    assert (codes + [k])[..|codes|] == codes;
  }

  lemma {:induction false} ModsConcat(m: Mods, a: seq<Action>, b: seq<Action>)
    ensures ModsAfter(m, a + b) == ModsAfter(ModsAfter(m, a), b)
  {
    if b == [] {
      assert a + b == a;
    } else {
      var n := |b| - 1;
      ModsConcat(m, a, b[..n]);
      assert (a + b)[..|a + b| - 1] == a + b[..n];
    }
  }

  lemma {:induction false} FeedConcat(line: seq<byte>, a: seq<Action>, b: seq<Action>)
    ensures FeedAll(line, a + b) == FeedAll(FeedAll(line, a), b)
  {
    if b == [] {
      assert a + b == a;
    } else {
      var n := |b| - 1;
      FeedConcat(line, a, b[..n]);
      assert (a + b)[..|a + b| - 1] == a + b[..n];
    }
  }

  /** A run of scan codes asks for what its two parts ask for, one after the other. */
  lemma {:induction false} ActionsConcat(keymap: Keymap, m: Mods, a: seq<byte>, b: seq<byte>)
    ensures Actions(keymap, m, a + b) == Actions(keymap, m, a) + Actions(keymap, ModsAfter(m, Actions(keymap, m, a)), b)
  {
    if b == [] {
      assert a + b == a;
    } else {
      var before, k := b[..|b| - 1], b[|b| - 1];
      ActionsConcat(keymap, m, a, before);
      OneMoreCode(keymap, m, a, before, k);
      assert before + [k] == b;
    }
  }

  lemma OneMoreCode(keymap: Keymap, m: Mods, a: seq<byte>, b: seq<byte>, k: byte)
    requires Actions(keymap, m, a + b) == Actions(keymap, m, a) + Actions(keymap, ModsAfter(m, Actions(keymap, m, a)), b)
    ensures Actions(keymap, m, a + (b + [k])) ==
            Actions(keymap, m, a) + Actions(keymap, ModsAfter(m, Actions(keymap, m, a)), b + [k])
  {
    var x := Actions(keymap, m, a);
    var y := Actions(keymap, ModsAfter(m, x), b);
    ModsConcat(m, x, y);
    ActionsSnoc(keymap, m, a + b, k);
    ActionsSnoc(keymap, ModsAfter(m, x), b, k);
    assert a + (b + [k]) == a + b + [k];
  }

  lemma ActionsOf1(keymap: Keymap, m: Mods, k: byte)
    ensures Actions(keymap, m, [k]) == [Classify(keymap, m, k)]
  {
    assert [] + [k] == [k];
    ActionsSnoc(keymap, m, [], k);
  }

  lemma ActionsOf2(keymap: Keymap, m: Mods, j: byte, k: byte)
    ensures var a := Classify(keymap, m, j);
      Actions(keymap, m, [j, k]) == [a, Classify(keymap, if a.SetMods? then a.mods else m, k)]
  {
    ActionsOf1(keymap, m, j);
    assert [j] + [k] == [j, k];
    ActionsSnoc(keymap, m, [j], k);
    assert ModsAfter(m, []) == m;
  }

  // ---- The keys that do not type -------------------------------------------------------------

  /** Ctrl, either Shift and Alt are held from their scan code to their release code, 128 higher; Caps Lock flips. */
  lemma ModifierKeys(keymap: Keymap, m: Mods)
    ensures ModsBy(keymap, m, [29]) == m.(ctrl := true) && ModsBy(keymap, m, [29, 157]) == m.(ctrl := false)
    ensures ModsBy(keymap, m, [42]) == m.(shift := true) && ModsBy(keymap, m, [42, 170]) == m.(shift := false)
    ensures ModsBy(keymap, m, [54]) == m.(shift := true) && ModsBy(keymap, m, [54, 182]) == m.(shift := false)
    ensures ModsBy(keymap, m, [56]) == m.(alt := true) && ModsBy(keymap, m, [56, 184]) == m.(alt := false)
    ensures ModsBy(keymap, m, [58]) == m.(caps := !m.caps) && ModsBy(keymap, m, [58, 58]) == m
  {
    ModsByTwo(keymap, m, 29, 157);
    ModsByTwo(keymap, m, 42, 170);
    ModsByTwo(keymap, m, 54, 182);
    ModsByTwo(keymap, m, 56, 184);
    ModsByTwo(keymap, m, 58, 58);
  }

  /** The modifiers after a run of scan codes. */
  function ModsBy(keymap: Keymap, m: Mods, codes: seq<byte>): Mods {
    ModsAfter(m, Actions(keymap, m, codes))
  }

  lemma ModsByTwo(keymap: Keymap, m: Mods, j: byte, k: byte)
    requires Classify(keymap, m, j).SetMods?
    ensures ModsBy(keymap, m, [j]) == Classify(keymap, m, j).mods
    ensures var b := Classify(keymap, Classify(keymap, m, j).mods, k); b.SetMods? ==> ModsBy(keymap, m, [j, k]) == b.mods
  {
    ActionsOf1(keymap, m, j);
    ActionsOf2(keymap, m, j, k);
  }

  lemma ActOne(s: Desk, a: Action)
    requires s.Valid()
    ensures ActAll(s, [a]) == Act(s, a)
  {
    assert [a][..0] == [];
  }

  lemma ActTwo(s: Desk, a: Action, b: Action)
    requires s.Valid()
    ensures ActAll(s, [a, b]) == Act(Act(s, a), b)
  {
    ActOne(s, a);
    assert [a, b][..1] == [a];
  }

  /** One scan code takes a terminal through its action, and two through theirs. */
  lemma ActsOnce(keymap: Keymap, s: Desk, k: byte, a: Action)
    requires s.Valid() && Classify(keymap, s.mods, k) == a
    ensures ActAll(s, Actions(keymap, s.mods, [k])) == Act(s, a)
  {
    ActionsOf1(keymap, s.mods, k);
    ActOne(s, a);
  }

  lemma ActsTwice(keymap: Keymap, s: Desk, j: byte, k: byte, a: Action, b: Action)
    requires s.Valid() && Classify(keymap, s.mods, j) == a
    requires Classify(keymap, if a.SetMods? then a.mods else s.mods, k) == b
    ensures ActAll(s, Actions(keymap, s.mods, [j, k])) == Act(Act(s, a), b)
  {
    ActionsOf2(keymap, s.mods, j, k);
    ActTwo(s, a, b);
  }

  lemma ActTab(s: Desk)
    requires s.Valid()
    ensures Act(s, Tabulate) == s.(d := Step(s.d, 9))
  {
  }

  /** The Tab key moves the cursor like a tab and leaves the line alone. */
  lemma TabKey(keymap: Keymap, s: Desk)
    requires s.Valid()
    ensures ActAll(s, Actions(keymap, s.mods, [15])) == s.(d := Step(s.d, 9))
  {
    ActsOnce(keymap, s, 15, Tabulate);
    ActTab(s);
  }

  /** Ctrl-L clears the screen, whatever other keys are held, and leaves the line alone. */
  lemma CtrlL(s: Desk)
    requires s.Valid()
    ensures ActAll(s, Actions(Keypress, s.mods, [29, 38])) == Desk(EMPTY, s.k, s.mods.(ctrl := true))
  {
    var m := s.mods.(ctrl := true);
    LKey(m);
    ActsTwice(Keypress, s, 29, 38, SetMods(m), ClearScreen);
  }

  lemma LKey(m: Mods)
    requires m.ctrl
    ensures Classify(Keypress, m, 38).ClearScreen?
  {
    RegularLetters(11);
    CapsLetters(11);
    ShiftedLetters(11);
    ShiftedCapsLetters(11);
  }

  /** Releasing any other key does nothing, and neither do the up and down keys. */
  lemma QuietKeys(s: Desk, k: byte)
    requires s.Valid() && (k == 72 || k == 80 || (k >= 128 && k !in {157, 170, 182, 184}))
    ensures ActAll(s, Actions(Keypress, s.mods, [k])) == s
  {
    NothingTyped(s.mods, k);
    ActsOnce(Keypress, s, k, Nothing);
  }

  lemma NothingTyped(m: Mods, k: byte)
    requires k == 72 || k == 80 || (k >= 128 && k !in {157, 170, 182, 184})
    ensures Classify(Keypress, m, k) == Nothing
  {
  }

  /** A key that types a character, and then Backspace: line, cursor and all cells before it are what they were. On a
      full line the character is not taken, and Backspace drops the last one that was. */
  lemma KeyThenBackspace(s: Desk, k: byte, start: nat)
    requires s.Valid() && Echoed(s.d, s.k, start) && Classify(Keypress, s.mods, k).Type?
    ensures Undone(s, ActAll(s, Actions(Keypress, s.mods, [k, 14])))
  {
    TypedIsText(s.mods, k);
    TypeThenErase(Keypress, s, k, start);
  }

  lemma TypedIsText(m: Mods, k: byte)
    requires Classify(Keypress, m, k).Type?
    ensures !IsControl(Classify(Keypress, m, k).c)
  {
    KeysAreText(m, k);
  }

  ghost predicate Undone(s: Desk, r: Desk)
    requires s.Valid() && r.Valid()
  {
    && (s.k.bufferIndex < 128 ==> Line(r.k) == Line(s.k) && r.d.pos == s.d.pos)
    && (s.k.bufferIndex == 128 ==> Line(r.k) == Line(s.k)[..127] && r.d.pos + 1 == s.d.pos)
    && r.d.tape[..r.d.pos] == s.d.tape[..r.d.pos]
  }

  lemma TypeThenErase(keymap: Keymap, s: Desk, k: byte, start: nat)
    requires s.Valid() && Echoed(s.d, s.k, start)
    requires Classify(keymap, s.mods, k).Type? && !IsControl(Classify(keymap, s.mods, k).c)
    ensures Undone(s, ActAll(s, Actions(keymap, s.mods, [k, 14])))
  {
    var a := Classify(keymap, s.mods, k);
    ActsTwice(keymap, s, k, 14, a, Erase);
    UndoneByErase(s, a.c, start);
  }

  lemma UndoneByErase(s: Desk, c: byte, start: nat)
    requires s.Valid() && Echoed(s.d, s.k, start) && c != NUL && !IsControl(c)
    ensures Undone(s, Act(Act(s, Type(c)), Erase))
  {
    if s.k.bufferIndex < 128 {
      TypeEchoes(s.d, s.k, c, start);
      BackspaceUndoes(s.d, c);
      SliceBeforeStore(s.d.tape, 0, s.d.pos, s.d.pos, SPACE);
      ActType(s, c);
      SameLine(s.k, c);
      var r := Step(Step(s.d, c), BACKSPACE);
      assert r.tape[..s.d.pos] == r.tape[..|s.d.tape|][..s.d.pos];
    } else {
      EraseEchoes(s.d, s.k, start);
      SliceBeforeStore(s.d.tape, 0, s.d.pos - 1, s.d.pos - 1, SPACE);
    }
  }

  lemma SameLine(k: Keys, c: byte)
    requires k.Valid() && k.bufferIndex < BUFF_SIZE
    ensures var t := Typed(k, c); Line(t.(bufferIndex := t.bufferIndex - 1)) == Line(k)
  {
  }

  /** Alt with F1, F2 or F3 makes terminal 0, 1 or 2 visible and changes nothing else but the Alt flag. */
  method AltF(c: Console, i: nat)
    requires c.Valid() && c.Keyed() && c.keymap == Keypress && i < 3
    modifies c`screenX, c`screenY, c`cursor, c`docs, c`mods, c`active, c.mem, c.terminal, c.keys
    ensures c.Valid() && c.Keyed() && c.active == i && c.docs == old(c.docs) && c.mods == old(c.mods).(alt := true)
    ensures forall t :: 0 <= t < 3 ==> c.keys[t] == old(c.keys[t])
  {
    c.KeyboardHandler(56);
    c.KeyboardHandler(59 + i);
  }

  // ---- Typing a text ------------------------------------------------------------------------

  /** The modifiers when nothing is held. */
  function Idle(caps: bool): Mods {
    Mods(false, false, caps, false)
  }

  /** The scan codes of one character: its key is pressed and released, inside Shift when it needs that. */
  function Strokes(c: byte, caps: bool): (r: seq<byte>)
    requires Printable(c)
  {
    var (k, shift) := KeyOf(c, caps);
    if shift then [42, k] + [k + 128, 170] else [k, k + 128]
  }

  function TextStrokes(text: seq<byte>, caps: bool): seq<byte>
    requires forall c :: c in text ==> Printable(c)
  {
    if text == [] then [] else TextStrokes(text[..|text| - 1], caps) + Strokes(text[|text| - 1], caps)
  }

  lemma KeyClassified(c: byte, caps: bool)
    requires Printable(c)
    ensures var (k, shift) := KeyOf(c, caps); var m := Mods(shift, false, caps, false);
      Classify(Keypress, m, k) == Type(c) && Classify(Keypress, m, k + 128) == Nothing
  {
    KeyRange(c, caps);
    KeyTypes(c, caps);
  }

  /** These actions come to typing one character: no modifier stays held. */
  ghost predicate ComesTo(m: Mods, actions: seq<Action>, c: byte) {
    && ModsAfter(m, actions) == m && (forall a :: a in actions ==> Edits(a))
    && forall line :: FeedAll(line, actions) == Feed(line, Type(c))
  }

  /** The strokes of a character come to that character. */
  lemma StrokesType(c: byte, caps: bool)
    requires Printable(c)
    ensures ComesTo(Idle(caps), Actions(Keypress, Idle(caps), Strokes(c, caps)), c)
  {
    var (k, shift) := KeyOf(c, caps);
    KeyClassified(c, caps);
    KeyRange(c, caps);
    if shift {
      ShiftComesTo(Keypress, caps, k, c);
    } else {
      PlainComesTo(Keypress, caps, k, c);
    }
  }

  lemma PlainComesTo(keymap: Keymap, caps: bool, k: byte, c: byte)
    requires k < 128 && c != NUL && !IsControl(c)
    requires Classify(keymap, Idle(caps), k) == Type(c) && Classify(keymap, Idle(caps), k + 128) == Nothing
    ensures ComesTo(Idle(caps), Actions(keymap, Idle(caps), [k, k + 128]), c)
  {
    ActionsOf2(keymap, Idle(caps), k, k + 128);
    TwoActions(Idle(caps), Type(c), Nothing);
  }

  lemma ShiftComesTo(keymap: Keymap, caps: bool, k: byte, c: byte)
    requires k < 128 && c != NUL && !IsControl(c)
    requires var m := Idle(caps).(shift := true); Classify(keymap, m, k) == Type(c) && Classify(keymap, m, k + 128) == Nothing
    ensures ComesTo(Idle(caps), Actions(keymap, Idle(caps), [42, k] + [k + 128, 170]), c)
  {
    var m := Idle(caps).(shift := true);
    ShiftStrokes(keymap, caps, k, c);
    FourActions(Idle(caps), SetMods(m), Type(c), Nothing, SetMods(Idle(caps)));
  }

  lemma ShiftStrokes(keymap: Keymap, caps: bool, k: byte, c: byte)
    requires k < 128 && c != NUL
    requires var m := Idle(caps).(shift := true); Classify(keymap, m, k) == Type(c) && Classify(keymap, m, k + 128) == Nothing
    ensures Actions(keymap, Idle(caps), [42, k] + [k + 128, 170]) ==
            [SetMods(Idle(caps).(shift := true)), Type(c)] + [Nothing, SetMods(Idle(caps))]
  {
    var m := Idle(caps).(shift := true);
    ActionsOf2(keymap, Idle(caps), 42, k);
    ActionsOf2(keymap, m, k + 128, 170);
    assert ModsAfter(Idle(caps), [SetMods(m), Type(c)]) == m by {
      assert [SetMods(m), Type(c)][..1] == [SetMods(m)];
    }
    ActionsConcat(keymap, Idle(caps), [42, k], [k + 128, 170]);
  }

  lemma TwoActions(m: Mods, a: Action, b: Action)
    requires !a.SetMods? && !b.SetMods?
    ensures ModsAfter(m, [a, b]) == m && forall line :: FeedAll(line, [a, b]) == Feed(Feed(line, a), b)
  {
    assert [a, b][..1] == [a] && [a][..0] == [];
    assert ModsAfter(m, [a]) == ModsAfter(m, []);
    forall line
      ensures FeedAll(line, [a, b]) == Feed(Feed(line, a), b)
    {
      assert FeedAll(line, [a]) == Feed(FeedAll(line, []), a);
    }
  }

  lemma FourActions(m: Mods, a: Action, b: Action, c: Action, d: Action)
    requires d.SetMods?
    ensures var all := [a, b] + [c, d];
      ModsAfter(m, all) == d.mods && forall line :: FeedAll(line, all) == Feed(Feed(Feed(Feed(line, a), b), c), d)
  {
    var all := [a, b] + [c, d];
    assert all[..3] == [a, b, c] && [a, b, c][..2] == [a, b] && [a, b][..1] == [a] && [a][..0] == [];
    forall line
      ensures FeedAll(line, all) == Feed(Feed(Feed(Feed(line, a), b), c), d)
    {
      assert FeedAll(line, [a]) == Feed(FeedAll(line, []), a);
      assert FeedAll(line, [a, b]) == Feed(FeedAll(line, [a]), b);
      assert FeedAll(line, [a, b, c]) == Feed(FeedAll(line, [a, b]), c);
    }
  }

  /** The first 128 bytes of a line. */
  function Fits(line: seq<byte>): seq<byte> {
    if |line| <= 128 then line else line[..128]
  }

  /** These actions take one line to another, and no modifier stays held. */
  ghost predicate Leads(m: Mods, actions: seq<Action>, line: seq<byte>, result: seq<byte>) {
    ModsAfter(m, actions) == m && (forall a :: a in actions ==> Edits(a)) && FeedAll(line, actions) == result
  }

  lemma OneMoreCharacter(m: Mods, x: seq<Action>, y: seq<Action>, line: seq<byte>, result: seq<byte>, c: byte)
    requires Leads(m, x, line, result) && ComesTo(m, y, c)
    ensures Leads(m, x + y, line, Feed(result, Type(c)))
  {
    ModsConcat(m, x, y);
    FeedConcat(line, x, y);
  }

  /** With this table, the strokes of every printable character come to that character. */
  ghost predicate Works(keymap: Keymap, caps: bool) {
    forall c: byte :: Printable(c) ==> ComesTo(Idle(caps), Actions(keymap, Idle(caps), Strokes(c, caps)), c)
  }

  /** Typing any printable text, with Caps Lock on or off, extends the line by exactly that text, up to 128 bytes. */
  lemma TextIsFed(line: seq<byte>, text: seq<byte>, caps: bool)
    requires |line| <= 128 && forall c :: c in text ==> Printable(c)
    ensures Leads(Idle(caps), Actions(Keypress, Idle(caps), TextStrokes(text, caps)), line, Fits(line + text))
  {
    forall c: byte | Printable(c)
      ensures ComesTo(Idle(caps), Actions(Keypress, Idle(caps), Strokes(c, caps)), c)
    {
      StrokesType(c, caps);
    }
    TextIsFedBy(Keypress, line, text, caps);
  }

  lemma {:induction false} TextIsFedBy(keymap: Keymap, line: seq<byte>, text: seq<byte>, caps: bool)
    requires Works(keymap, caps) && |line| <= 128 && forall c :: c in text ==> Printable(c)
    ensures Leads(Idle(caps), Actions(keymap, Idle(caps), TextStrokes(text, caps)), line, Fits(line + text))
  {
    if text == [] {
      assert line + text == line;
    } else {
      var before, c := text[..|text| - 1], text[|text| - 1];
      TextIsFedBy(keymap, line, before, caps);
      OneMoreStroke(keymap, TextStrokes(before, caps), line, Fits(line + before), c, caps);
      FitsOneMore(line, before, c);
      assert before + [c] == text;
    }
  }

  lemma OneMoreStroke(keymap: Keymap, codes: seq<byte>, line: seq<byte>, result: seq<byte>, c: byte, caps: bool)
    requires Works(keymap, caps) && Printable(c) && Leads(Idle(caps), Actions(keymap, Idle(caps), codes), line, result)
    ensures Leads(Idle(caps), Actions(keymap, Idle(caps), codes + Strokes(c, caps)), line, Feed(result, Type(c)))
  {
    var x, y := Actions(keymap, Idle(caps), codes), Actions(keymap, Idle(caps), Strokes(c, caps));
    assert ComesTo(Idle(caps), y, c);
    ActionsConcat(keymap, Idle(caps), codes, Strokes(c, caps));
    OneMoreCharacter(Idle(caps), x, y, line, result, c);
  }

  lemma FitsOneMore(line: seq<byte>, text: seq<byte>, c: byte)
    requires |line| <= 128
    ensures Feed(Fits(line + text), Type(c)) == Fits(line + (text + [c]))
  {
    assert line + (text + [c]) == line + text + [c];
  }

  lemma {:induction false} NoArrows(text: seq<byte>, caps: bool)
    requires forall c :: c in text ==> Printable(c)
    ensures 75 !in TextStrokes(text, caps) && 77 !in TextStrokes(text, caps)
  {
    if text != [] {
      NoArrows(text[..|text| - 1], caps);
      NoArrowStroke(text[|text| - 1], caps);
    }
  }

  lemma NoArrowStroke(c: byte, caps: bool)
    requires Printable(c)
    ensures 75 !in Strokes(c, caps) && 77 !in Strokes(c, caps)
  {
    KeyRange(c, caps);
  }

  /** Typing any printable text on an empty line shows exactly that text on the screen, up to 128 bytes of it, from the
      start of the line to the cursor, and changes no cell before it. */
  lemma TextAppears(s: Desk, text: seq<byte>, caps: bool, start: nat)
    requires s.Valid() && Echoed(s.d, s.k, start) && s.k.bufferIndex == 0 && s.mods == Idle(caps)
    requires forall c :: c in text ==> Printable(c)
    ensures var r := ActAll(s, Actions(Keypress, s.mods, TextStrokes(text, caps)));
      Line(r.k) == Fits(text) && s.d.tape[..start] <= r.d.tape &&
      exists at :: start <= at <= r.d.pos && r.d.tape[at..r.d.pos] == Fits(text)
  {
    var a := Actions(Keypress, s.mods, TextStrokes(text, caps));
    TextIsFed([], text, caps);
    assert [] + text == text && Line(s.k) == [];
    TypingIsEchoed(s, a, start);
    var r := ActAll(s, a);
    assert r.d.tape[LineStart(s, a, start)..r.d.pos] == Line(r.k);
  }

  /** The round trip through the keyboard: typing any printable text on an empty line, Enter and a read deliver exactly
      that text, up to 128 bytes of it, and a newline. */
  method TypeText(c: Console, text: seq<byte>, caps: bool, ghost start: nat, buffer: array<byte>) returns (r: int)
    requires c.Valid() && c.Keyed() && c.keymap == Keypress && c.mods == Idle(caps)
    requires buffer != c.mem && buffer.Length >= 130
    requires Echoed(c.docs[c.active], c.keys[c.active], start) && c.keys[c.active].bufferIndex == 0
    requires forall x :: x in text ==> Printable(x)
    modifies c`screenX, c`screenY, c`cursor, c`docs, c`mods, c`active, c.mem, c.terminal, c.keys, buffer
    ensures c.Valid() && c.Keyed() && c.active == old(c.active)
    ensures r == |Fits(text)| + 1 && Fits(text) + [NEWLINE, NUL] <= buffer[..]
  {
    NoArrows(text, caps);
    TextIsFed([], text, caps);
    assert [] + text == text && Line(c.keys[c.active]) == [];
    r := c.ReadLine(TextStrokes(text, caps), start, buffer);
  }
}
