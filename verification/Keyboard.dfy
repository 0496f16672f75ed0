/** The scan-code tables of student-distrib/keyboard.c, and the line being
    edited as a plain list of bytes. */
module Keyboard {
  import opened Bytes
  import opened Document

  const ENTER := 28
  const TAB_KEY := 15
  const BACKSPACE_KEY := 14
  const LEFT := 75
  const RIGHT := 77

  /** The four modifier flags. */
  datatype Mods = Mods(shift: bool, alt: bool, caps: bool, ctrl: bool)

  function At(row: string, k: nat): byte
    requires k < |row| && forall i :: 0 <= i < |row| ==> row[i] as int < 256
  {
    row[k] as int
  }

  /** keyboard_scancode_regular: the unshifted characters. */
  function Regular(k: nat): byte {
    if k == 1 then 27
    else if 2 <= k < 16 then At("1234567890-=\U{8}\t", k - 2)
    else if 16 <= k < 29 then At("qwertyuiop[]\n", k - 16)
    else if 30 <= k < 42 then At("asdfghjkl;'`", k - 30)
    else if 43 <= k < 54 then At("\\zxcvbnm,./", k - 43)
    else Keypad(k)
  }

  /** keyboard_scancode_shift. */
  function Shifted(k: nat): byte {
    if k == 1 then 27
    else if 2 <= k < 16 then At("!@#$%^&*()_+\U{8}\t", k - 2)
    else if 16 <= k < 29 then At("QWERTYUIOP{}\n", k - 16)
    else if 30 <= k < 42 then At("ASDFGHJKL:\"~", k - 30)
    else if 43 <= k < 54 then At("|ZXCVBNM<>?", k - 43)
    else Keypad(k)
  }

  /** keyboard_scancode_caps. */
  function Caps(k: nat): byte {
    if k == 1 then 27
    else if 2 <= k < 16 then At("1234567890-=\U{8}\t", k - 2)
    else if 16 <= k < 29 then At("QWERTYUIOP[]\n", k - 16)
    else if 30 <= k < 42 then At("ASDFGHJKL;'`", k - 30)
    else if 43 <= k < 54 then At("\\ZXCVBNM,./", k - 43)
    else Keypad(k)
  }

  /** keyboard_scancode_shift_and_caps. */
  function ShiftedCaps(k: nat): byte {
    if k == 1 then 27
    else if 2 <= k < 16 then At("!@#$%^&*()_+\U{8}\t", k - 2)
    else if 16 <= k < 29 then At("qwertyuiop{}\n", k - 16)
    else if 30 <= k < 42 then At("asdfghjkl:\"~", k - 30)
    else if 43 <= k < 54 then At("|zxcvbnm<>?", k - 43)
    else Keypad(k)
  }

  /** The entries that are the same in all four tables. */
  function Keypad(k: nat): byte {
    if k == 55 then '*' as int else if k == 57 then ' ' as int
    else if k == 74 then '-' as int else if k == 78 then '+' as int else 0
  }

  /** keypress_handler: 0 for a key without a character. */
  function Keypress(m: Mods, k: byte): byte {
    if !(0 < k < 128) then 0
    else if m.shift && !m.caps then Shifted(k)
    else if !m.shift && m.caps then Caps(k)
    else if m.shift && m.caps then ShiftedCaps(k)
    else Regular(k)
  }

  predicate Editing(k: byte) {
    k == ENTER || k == TAB_KEY || k == BACKSPACE_KEY
  }

  /** Apart from Enter, Tab and Backspace, no key produces a console control byte. */
  lemma KeysAreText(m: Mods, k: byte)
    requires !Editing(k)
    ensures !IsControl(Keypress(m, k))
  {
    RegularIsText(k);
    ShiftedIsText(k);
    CapsIsText(k);
    ShiftedCapsIsText(k);
  }

  lemma RegularIsText(k: byte)
    requires !Editing(k)
    ensures !IsControl(Regular(k))
  {
  }

  lemma ShiftedIsText(k: byte)
    requires !Editing(k)
    ensures !IsControl(Shifted(k))
  {
  }

  lemma CapsIsText(k: byte)
    requires !Editing(k)
    ensures !IsControl(Caps(k))
  {
  }

  lemma ShiftedCapsIsText(k: byte)
    requires !Editing(k)
    ensures !IsControl(ShiftedCaps(k))
  {
  }

  predicate IsLetter(k: byte) {
    16 <= k < 26 || 30 <= k < 39 || 44 <= k < 51
  }

  /** On letter keys Shift and Caps Lock cancel out. */
  lemma CapsFlipsShiftOnLetters(m: Mods, k: byte)
    requires IsLetter(k)
    ensures Keypress(m, k) == if m.shift != m.caps then Shifted(k) else Regular(k)
  {
  }

  /** On every other key Caps Lock has no effect. */
  lemma CapsKeepsOtherKeys(m: Mods, k: byte)
    requires !IsLetter(k)
    ensures Keypress(m, k) == Keypress(m.(caps := false), k)
  {
  }

  /** What one scan code asks for (the switch of keyboard_handler). */
  datatype Action =
    | SetMods(mods: Mods)
    | Return
    | Tabulate
    | Erase
    | Nothing
    | Show(terminal: nat)
    | ClearScreen
    | Type(c: byte)

  /** A scan-code table: the character of a key under some modifiers, 0 for none. */
  type Keymap = (Mods, byte) -> byte

  function Classify(keymap: Keymap, m: Mods, k: byte): (a: Action)
    ensures a.Show? ==> a.terminal < 3
    ensures a.Type? ==> a.c != NUL
  {
    match k
    case 29 => SetMods(m.(ctrl := true))
    case 157 => SetMods(m.(ctrl := false))
    case 54 => SetMods(m.(shift := true))
    case 182 => SetMods(m.(shift := false))
    case 42 => SetMods(m.(shift := true))
    case 170 => SetMods(m.(shift := false))
    case 56 => SetMods(m.(alt := true))
    case 184 => SetMods(m.(alt := false))
    case 58 => SetMods(m.(caps := !m.caps))
    case 28 => Return
    case 15 => Tabulate
    case 14 => Erase
    case 72 => Nothing
    case 80 => Nothing
    case 0 => Nothing
    case _ =>
      if m.alt && 59 <= k <= 61 then Show(k - 59) else
      var c := keymap(m, k);
      if c == NUL then Nothing
      else if m.ctrl && (c == 'l' as int || c == 'L' as int) then ClearScreen
      else Type(c)
  }

  /** Actions that edit the line or change a modifier: no Tab, no screen clear, no terminal switch. */
  predicate Edits(a: Action) {
    a.SetMods? || a.Return? || a.Erase? || a.Nothing? || (a.Type? && a.c != NUL && !IsControl(a.c))
  }

  /** With the tables above, every key edits, tabulates, clears the screen or switches terminals. */
  lemma ClassifyEdits(m: Mods, k: byte)
    ensures var a := Classify(Keypress, m, k); Edits(a) || a.Tabulate? || a.ClearScreen? || a.Show?
  {
    if !Editing(k) {
      KeysAreText(m, k);
    }
  }

  /** The modifiers held after some actions. */
  function ModsAfter(m: Mods, actions: seq<Action>): Mods {
    if actions == [] then m else
    var a := actions[|actions| - 1];
    if a.SetMods? then a.mods else ModsAfter(m, actions[..|actions| - 1])
  }

  /** What a run of scan codes asks for, each one read under the modifiers held when it arrives. */
  function Actions(keymap: Keymap, m: Mods, scancodes: seq<byte>): (r: seq<Action>)
    ensures |r| == |scancodes|
  {
    if scancodes == [] then [] else
    var before := Actions(keymap, m, scancodes[..|scancodes| - 1]);
    before + [Classify(keymap, ModsAfter(m, before), scancodes[|scancodes| - 1])]
  }

  /** Each action is the one its scan code asks for under the modifiers held by then. */
  lemma {:induction false} ActionAt(keymap: Keymap, m: Mods, scancodes: seq<byte>, i: nat)
    requires i < |scancodes|
    ensures var all := Actions(keymap, m, scancodes);
      all[i] == Classify(keymap, ModsAfter(m, all[..i]), scancodes[i])
  {
    var n := |scancodes| - 1;
    var all, before := Actions(keymap, m, scancodes), Actions(keymap, m, scancodes[..n]);
    assert all[..n] == before;
    if i < n {
      ActionAt(keymap, m, scancodes[..n], i);
      assert before[..i] == all[..i];
    }
  }

  /** The line a user is typing: characters extend it up to 128 bytes, Backspace drops the last one, Enter starts a new one. */
  function Feed(line: seq<byte>, a: Action): seq<byte> {
    match a
    case Return => []
    case Erase => if line == [] then [] else line[..|line| - 1]
    case Type(c) => if |line| < 128 then line + [c] else line
    case _ => line
  }

  function FeedAll(line: seq<byte>, actions: seq<Action>): seq<byte> {
    if actions == [] then line else Feed(FeedAll(line, actions[..|actions| - 1]), actions[|actions| - 1])
  }
}
