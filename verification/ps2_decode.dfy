/**
 * The PS/2 keyboard decoder: KeyGetchar and UpdateStatusLights.
 *
 * KeyGetchar first takes one more byte from the controller (as the timer
 * handler does), then pops Scan Code Set 1 sequences off the scancode
 * buffer until it reaches a make code: E0 marks an extended key, an E1
 * (Pause) prefix swallows three bytes, modifier and lock keys update the
 * driver's state, break codes are skipped. The make code is translated
 * through the driver's table into an EFI key (scan code and Unicode
 * character), adjusted for Shift, CapsLock, Ctrl and NumLock, and the
 * shift and toggle state is recorded.
 *
 * The keyboard command handshake (KeyboardWrite, KeyboardWaitForValue) is
 * not modelled: a lights update is recorded as the command bytes sent.
 */
module Ps2Decode {
  import opened Efi
  import opened Ps2Buffer
  import Bits

  const SCANCODE_EXTENDED: nat := 0xE0
  const SCANCODE_EXTENDED1: nat := 0xE1
  const SCANCODE_LEFT_SHIFT_MAKE: nat := 0x2A
  const SCANCODE_LEFT_SHIFT_BREAK: nat := 0xAA
  const SCANCODE_RIGHT_SHIFT_MAKE: nat := 0x36
  const SCANCODE_RIGHT_SHIFT_BREAK: nat := 0xB6
  const SCANCODE_LEFT_LOGO_MAKE: nat := 0x5B
  const SCANCODE_LEFT_LOGO_BREAK: nat := 0xDB
  const SCANCODE_RIGHT_LOGO_MAKE: nat := 0x5C
  const SCANCODE_RIGHT_LOGO_BREAK: nat := 0xDC
  const SCANCODE_MENU_MAKE: nat := 0x5D
  const SCANCODE_MENU_BREAK: nat := 0xDD
  const SCANCODE_SYS_REQ_MAKE: nat := 0x37
  const SCANCODE_CAPS_LOCK_MAKE: nat := 0x3A
  const SCANCODE_NUM_LOCK_MAKE: nat := 0x45
  const SCANCODE_SCROLL_LOCK_MAKE: nat := 0x46
  /** Codes at or above this are break codes (or out of range) and are skipped. */
  const SCANCODE_MAX_MAKE: nat := 0x60

  /** Keyboard commands: set the LEDs. */
  const KEYBOARD_SET_LEDS: nat := 0xED

  // EFI scan codes (UEFI Specification, EFI_INPUT_KEY)
  const SCAN_NULL: nat := 0x00
  const SCAN_UP: nat := 0x01
  const SCAN_DOWN: nat := 0x02
  const SCAN_RIGHT: nat := 0x03
  const SCAN_LEFT: nat := 0x04
  const SCAN_HOME: nat := 0x05
  const SCAN_END: nat := 0x06
  const SCAN_INSERT: nat := 0x07
  const SCAN_DELETE: nat := 0x08
  const SCAN_PAGE_UP: nat := 0x09
  const SCAN_PAGE_DOWN: nat := 0x0A
  const SCAN_F1: nat := 0x0B
  const SCAN_F2: nat := 0x0C
  const SCAN_F3: nat := 0x0D
  const SCAN_F4: nat := 0x0E
  const SCAN_F5: nat := 0x0F
  const SCAN_F6: nat := 0x10
  const SCAN_F7: nat := 0x11
  const SCAN_F8: nat := 0x12
  const SCAN_F9: nat := 0x13
  const SCAN_F10: nat := 0x14
  const SCAN_F11: nat := 0x15
  const SCAN_F12: nat := 0x16
  const SCAN_ESC: nat := 0x17

  // KeyShiftState and KeyToggleState bits (UEFI Specification, EFI_KEY_STATE)
  const EFI_RIGHT_SHIFT_PRESSED: nat := 0x001
  const EFI_LEFT_SHIFT_PRESSED: nat := 0x002
  const EFI_RIGHT_CONTROL_PRESSED: nat := 0x004
  const EFI_LEFT_CONTROL_PRESSED: nat := 0x008
  const EFI_RIGHT_ALT_PRESSED: nat := 0x010
  const EFI_LEFT_ALT_PRESSED: nat := 0x020
  const EFI_RIGHT_LOGO_PRESSED: nat := 0x040
  const EFI_LEFT_LOGO_PRESSED: nat := 0x080
  const EFI_MENU_KEY_PRESSED: nat := 0x100
  const EFI_SYS_REQ_PRESSED: nat := 0x200
  const EFI_SCROLL_LOCK_ACTIVE: nat := 0x01
  const EFI_NUM_LOCK_ACTIVE: nat := 0x02
  const EFI_CAPS_LOCK_ACTIVE: nat := 0x04

  /** One row of the translation table: a set-1 make code, its EFI scan code and the two characters. */
  datatype Entry = Entry(scanCode: nat, efiScanCode: nat, unicodeChar: nat, shiftUnicodeChar: nat)

  /** A character's code point, as the table stores it. */
  function Ch(c: char): nat
  {
    c as nat
  }

  /**
   * The driver's table from set-1 make codes to EFI keys, in the source's
   * order. It is written as five consecutive groups of rows so that the
   * verifier can index each one cheaply; the concatenation is the table.
   */
  const TABLE: seq<Entry> := TYPEWRITER_TOP + TYPEWRITER_BOTTOM + FUNCTION_KEYS + KEYPAD_ROWS + EXTRA_KEYS

  /** Escape, the digit row, Backspace, Tab, the Q row, Enter and Ctrl. */
  const TYPEWRITER_TOP: seq<Entry> := [
    Entry(0x01, SCAN_ESC, 0, 0),
    Entry(0x02, SCAN_NULL, Ch('1'), Ch('!')),
    Entry(0x03, SCAN_NULL, Ch('2'), Ch('@')),
    Entry(0x04, SCAN_NULL, Ch('3'), Ch('#')),
    Entry(0x05, SCAN_NULL, Ch('4'), Ch('$')),
    Entry(0x06, SCAN_NULL, Ch('5'), Ch('%')),
    Entry(0x07, SCAN_NULL, Ch('6'), Ch('^')),
    Entry(0x08, SCAN_NULL, Ch('7'), Ch('&')),
    Entry(0x09, SCAN_NULL, Ch('8'), Ch('*')),
    Entry(0x0A, SCAN_NULL, Ch('9'), Ch('(')),
    Entry(0x0B, SCAN_NULL, Ch('0'), Ch(')')),
    Entry(0x0C, SCAN_NULL, Ch('-'), Ch('_')),
    Entry(0x0D, SCAN_NULL, Ch('='), Ch('+')),
    Entry(0x0E, SCAN_NULL, 0x08, 0x08),
    Entry(0x0F, SCAN_NULL, 0x09, 0x09),
    Entry(0x10, SCAN_NULL, Ch('q'), Ch('Q')),
    Entry(0x11, SCAN_NULL, Ch('w'), Ch('W')),
    Entry(0x12, SCAN_NULL, Ch('e'), Ch('E')),
    Entry(0x13, SCAN_NULL, Ch('r'), Ch('R')),
    Entry(0x14, SCAN_NULL, Ch('t'), Ch('T')),
    Entry(0x15, SCAN_NULL, Ch('y'), Ch('Y')),
    Entry(0x16, SCAN_NULL, Ch('u'), Ch('U')),
    Entry(0x17, SCAN_NULL, Ch('i'), Ch('I')),
    Entry(0x18, SCAN_NULL, Ch('o'), Ch('O')),
    Entry(0x19, SCAN_NULL, Ch('p'), Ch('P')),
    Entry(0x1A, SCAN_NULL, Ch('['), Ch('{')),
    Entry(0x1B, SCAN_NULL, Ch(']'), Ch('}')),
    Entry(0x1C, SCAN_NULL, 0x0D, 0x0D),
    Entry(0x1D, SCAN_NULL, 0, 0)
  ]

  /** The A and Z rows, both Shifts, keypad '*', Alt, Space and CapsLock. */
  const TYPEWRITER_BOTTOM: seq<Entry> := [
    Entry(0x1E, SCAN_NULL, Ch('a'), Ch('A')),
    Entry(0x1F, SCAN_NULL, Ch('s'), Ch('S')),
    Entry(0x20, SCAN_NULL, Ch('d'), Ch('D')),
    Entry(0x21, SCAN_NULL, Ch('f'), Ch('F')),
    Entry(0x22, SCAN_NULL, Ch('g'), Ch('G')),
    Entry(0x23, SCAN_NULL, Ch('h'), Ch('H')),
    Entry(0x24, SCAN_NULL, Ch('j'), Ch('J')),
    Entry(0x25, SCAN_NULL, Ch('k'), Ch('K')),
    Entry(0x26, SCAN_NULL, Ch('l'), Ch('L')),
    Entry(0x27, SCAN_NULL, Ch(';'), Ch(':')),
    Entry(0x28, SCAN_NULL, Ch('\''), Ch('"')),
    Entry(0x29, SCAN_NULL, Ch('`'), Ch('~')),
    Entry(0x2A, SCAN_NULL, 0, 0),
    Entry(0x2B, SCAN_NULL, Ch('\\'), Ch('|')),
    Entry(0x2C, SCAN_NULL, Ch('z'), Ch('Z')),
    Entry(0x2D, SCAN_NULL, Ch('x'), Ch('X')),
    Entry(0x2E, SCAN_NULL, Ch('c'), Ch('C')),
    Entry(0x2F, SCAN_NULL, Ch('v'), Ch('V')),
    Entry(0x30, SCAN_NULL, Ch('b'), Ch('B')),
    Entry(0x31, SCAN_NULL, Ch('n'), Ch('N')),
    Entry(0x32, SCAN_NULL, Ch('m'), Ch('M')),
    Entry(0x33, SCAN_NULL, Ch(','), Ch('<')),
    Entry(0x34, SCAN_NULL, Ch('.'), Ch('>')),
    Entry(0x35, SCAN_NULL, Ch('/'), Ch('?')),
    Entry(0x36, SCAN_NULL, 0, 0),
    Entry(0x37, SCAN_NULL, Ch('*'), Ch('*')),
    Entry(0x38, SCAN_NULL, 0, 0),
    Entry(0x39, SCAN_NULL, Ch(' '), Ch(' ')),
    Entry(0x3A, SCAN_NULL, 0, 0)
  ]

  /** F1..F10, NumLock and ScrollLock. */
  const FUNCTION_KEYS: seq<Entry> := [
    Entry(0x3B, SCAN_F1, 0, 0),
    Entry(0x3C, SCAN_F2, 0, 0),
    Entry(0x3D, SCAN_F3, 0, 0),
    Entry(0x3E, SCAN_F4, 0, 0),
    Entry(0x3F, SCAN_F5, 0, 0),
    Entry(0x40, SCAN_F6, 0, 0),
    Entry(0x41, SCAN_F7, 0, 0),
    Entry(0x42, SCAN_F8, 0, 0),
    Entry(0x43, SCAN_F9, 0, 0),
    Entry(0x44, SCAN_F10, 0, 0),
    Entry(0x45, SCAN_NULL, 0, 0),
    Entry(0x46, SCAN_NULL, 0, 0)
  ]

  /** The numeric keypad, 7 8 9 - 4 5 6 + 1 2 3 0 . */
  const KEYPAD_ROWS: seq<Entry> := [
    Entry(0x47, SCAN_HOME, Ch('7'), Ch('7')),
    Entry(0x48, SCAN_UP, Ch('8'), Ch('8')),
    Entry(0x49, SCAN_PAGE_UP, Ch('9'), Ch('9')),
    Entry(0x4A, SCAN_NULL, Ch('-'), Ch('-')),
    Entry(0x4B, SCAN_LEFT, Ch('4'), Ch('4')),
    Entry(0x4C, SCAN_NULL, Ch('5'), Ch('5')),
    Entry(0x4D, SCAN_RIGHT, Ch('6'), Ch('6')),
    Entry(0x4E, SCAN_NULL, Ch('+'), Ch('+')),
    Entry(0x4F, SCAN_END, Ch('1'), Ch('1')),
    Entry(0x50, SCAN_DOWN, Ch('2'), Ch('2')),
    Entry(0x51, SCAN_PAGE_DOWN, Ch('3'), Ch('3')),
    Entry(0x52, SCAN_INSERT, Ch('0'), Ch('0')),
    Entry(0x53, SCAN_DELETE, Ch('.'), Ch('.'))
  ]

  /** F11, F12, the two logo keys and the menu key. */
  const EXTRA_KEYS: seq<Entry> := [
    Entry(0x57, SCAN_F11, 0, 0),
    Entry(0x58, SCAN_F12, 0, 0),
    Entry(0x5B, SCAN_NULL, 0, 0),
    Entry(0x5C, SCAN_NULL, 0, 0),
    Entry(0x5D, SCAN_NULL, 0, 0)
  ]

  /** The first table row for a make code. */
  function Lookup(scan: nat): (r: Option<Entry>)
    ensures r.Some? ==> r.value.scanCode == scan
  {
    LookupIn(TABLE, scan)
  }

  /** The first row of t for a make code, if any. */
  function LookupIn(t: seq<Entry>, scan: nat): (r: Option<Entry>)
    ensures r.Some? <==> exists k :: 0 <= k < |t| && t[k].scanCode == scan
    ensures r.Some? ==> r.value in t && r.value.scanCode == scan
  {
    if |t| == 0 then None
    else if t[0].scanCode == scan then Some(t[0])
    else
      var r := LookupIn(t[1..], scan);
      assert forall k :: 1 <= k < |t| ==> t[k] == t[1..][k - 1];
      r
  }

  /** Make codes strictly increase along t. */
  ghost predicate Ascending(t: seq<Entry>)
  {
    forall i, j :: 0 <= i < j < |t| ==> t[i].scanCode < t[j].scanCode
  }

  /** The make codes of t all lie in lo..hi - 1. */
  ghost predicate CodesWithin(t: seq<Entry>, lo: nat, hi: nat)
  {
    forall i :: 0 <= i < |t| ==> lo <= t[i].scanCode < hi
  }

  /** Rows whose make codes are base, base + 1, ... are ascending and within their range. */
  lemma ConsecutiveRows(t: seq<Entry>, base: nat)
    requires forall i :: 0 <= i < |t| ==> t[i].scanCode == base + i
    ensures Ascending(t) && CodesWithin(t, base, base + |t|)
  {
  }

  /** Two ascending groups, the second above the first, are ascending together. */
  lemma AscendingAppend(a: seq<Entry>, b: seq<Entry>, lo: nat, mid: nat, hi: nat)
    requires lo <= mid <= hi
    requires Ascending(a) && CodesWithin(a, lo, mid)
    requires Ascending(b) && CodesWithin(b, mid, hi)
    ensures Ascending(a + b) && CodesWithin(a + b, lo, hi)
  {
    forall i, j | 0 <= i < j < |a + b|
      ensures (a + b)[i].scanCode < (a + b)[j].scanCode
    {
      if j < |a| {
        assert (a + b)[i] == a[i] && (a + b)[j] == a[j];
      } else if i >= |a| {
        assert (a + b)[i] == b[i - |a|] && (a + b)[j] == b[j - |a|];
      } else {
        assert (a + b)[i] == a[i] && (a + b)[j] == b[j - |a|];
      }
    }
    forall i | 0 <= i < |a + b|
      ensures lo <= (a + b)[i].scanCode < hi
    {
      if i < |a| {
        assert (a + b)[i] == a[i];
      } else {
        assert (a + b)[i] == b[i - |a|];
      }
    }
  }

  /** The table's make codes strictly increase, so no code has two rows. */
  lemma TableAscending()
    ensures Ascending(TABLE)
  {
    ConsecutiveRows(TYPEWRITER_TOP, 0x01);
    ConsecutiveRows(TYPEWRITER_BOTTOM, 0x1E);
    ConsecutiveRows(FUNCTION_KEYS, 0x3B);
    ConsecutiveRows(KEYPAD_ROWS, 0x47);
    assert Ascending(EXTRA_KEYS) && CodesWithin(EXTRA_KEYS, 0x57, 0x5E);
    AscendingAppend(TYPEWRITER_TOP, TYPEWRITER_BOTTOM, 0x01, 0x1E, 0x3B);
    AscendingAppend(TYPEWRITER_TOP + TYPEWRITER_BOTTOM, FUNCTION_KEYS, 0x01, 0x3B, 0x47);
    AscendingAppend(TYPEWRITER_TOP + TYPEWRITER_BOTTOM + FUNCTION_KEYS, KEYPAD_ROWS, 0x01, 0x47, 0x54);
    AscendingAppend(TYPEWRITER_TOP + TYPEWRITER_BOTTOM + FUNCTION_KEYS + KEYPAD_ROWS, EXTRA_KEYS, 0x01, 0x54, 0x5E);
  }

  /** Every row of the table is the row its own make code finds. */
  lemma LookupFindsRow(k: nat)
    requires k < |TABLE|
    ensures Lookup(TABLE[k].scanCode) == Some(TABLE[k])
  {
    TableAscending();
    var r := LookupIn(TABLE, TABLE[k].scanCode);
    assert r.Some?;
    var j :| 0 <= j < |TABLE| && TABLE[j] == r.value;
    assert j == k;
  }

  /** A keypad make code finds its row of the keypad group. */
  lemma KeypadRow(scan: nat)
    requires 0x47 <= scan <= 0x53
    ensures Lookup(scan) == Some(KEYPAD_ROWS[scan - 0x47])
  {
    var head := TYPEWRITER_TOP + TYPEWRITER_BOTTOM + FUNCTION_KEYS;
    assert |head| == 0x46;
    var k := |head| + (scan - 0x47);
    assert TABLE == head + KEYPAD_ROWS + EXTRA_KEYS;
    assert TABLE[k] == KEYPAD_ROWS[scan - 0x47];
    ConsecutiveRows(KEYPAD_ROWS, 0x47);
    LookupFindsRow(k);
  }

  predicate IsLower(c: nat)
  {
    'a' as nat <= c <= 'z' as nat
  }

  predicate IsUpper(c: nat)
  {
    'A' as nat <= c <= 'Z' as nat
  }

  /** A letter row: the plain character is a lower-case letter and the shifted one its capital. */
  predicate LetterRow(e: Entry)
  {
    IsLower(e.unicodeChar) && e.shiftUnicodeChar + 0x20 == e.unicodeChar
  }

  // ---------------------------------------------------------------------
  // Driver state

  /** The modifier and lock state KeyGetchar keeps. */
  datatype Modifiers = Modifiers(
    ctrl: bool, alt: bool, shift: bool, leftShift: bool, rightShift: bool,
    leftLogo: bool, rightLogo: bool, menu: bool, sysReq: bool,
    capsLock: bool, numLock: bool, scrollLock: bool)

  datatype Key = Key(scanCode: nat, unicodeChar: nat)

  /**
   * The console-in device as far as the decoder is concerned: the receive
   * path (ring, Ctrl/Alt tracking, reset request), the modifiers, the key
   * being returned, the recorded shift and toggle state, and the keyboard
   * commands sent for the status lights.
   */
  datatype Console = Console(recv: Receiver, mods: Modifiers, key: Key, shiftState: nat, toggleState: nat, sent: seq<nat>)

  predicate ValidConsole(c: Console)
  {
    Valid(c.recv.ring)
  }

  // ---------------------------------------------------------------------
  // Status lights

  /** The LED byte sent after the set-LEDs command: CapsLock, NumLock, ScrollLock in bits 2, 1, 0. */
  function LedCommand(m: Modifiers): (r: nat)
    ensures r < 8
    ensures Bits.Bit(r, 2) <==> m.capsLock
    ensures Bits.Bit(r, 1) <==> m.numLock
    ensures Bits.Bit(r, 0) <==> m.scrollLock
  {
    var caps := if m.capsLock then 4 else 0;
    var num := if m.numLock then 2 else 0;
    var scroll := if m.scrollLock then 1 else 0;
    LedBits(caps, num, scroll);
    Bits.Or(Bits.Or(Bits.Or(0, caps), num), scroll)
  }

  lemma LedBits(caps: nat, num: nat, scroll: nat)
    requires caps == 0 || caps == 4
    requires num == 0 || num == 2
    requires scroll == 0 || scroll == 1
    ensures var r := Bits.Or(Bits.Or(Bits.Or(0, caps), num), scroll);
      && r == caps + num + scroll
      && (Bits.Bit(r, 2) <==> caps == 4)
      && (Bits.Bit(r, 1) <==> num == 2)
      && (Bits.Bit(r, 0) <==> scroll == 1)
  {
    var a := Bits.Or(Bits.Or(0, caps), num);
    assert a == caps + num by {
      Bits.AndLowHigh(num, caps, 2);
      Bits.AndComm(num, caps);
      Bits.OrDisjoint(caps, num);
      Bits.Pow2Values();
    }
    assert Bits.Or(a, scroll) == a + scroll by {
      Bits.AndLowHigh(scroll, a, 1);
      Bits.AndComm(scroll, a);
      Bits.OrDisjoint(a, scroll);
    }
  }

  /** UpdateStatusLights: the set-LEDs command and the LED byte. */
  function UpdateStatusLights(c: Console): (c': Console)
    ensures c'.sent == c.sent + [KEYBOARD_SET_LEDS, LedCommand(c.mods)]
    ensures c' == c.(sent := c'.sent)
  {
    c.(sent := c.sent + [KEYBOARD_SET_LEDS, LedCommand(c.mods)])
  }

  // ---------------------------------------------------------------------
  // Special keys

  /** The make and break codes of Ctrl, Alt, the Shift keys, the logo keys and Menu. */
  function ModifierKey(m: Modifiers, scan: nat, extended: bool): (m': Modifiers)
    ensures m'.capsLock == m.capsLock && m'.numLock == m.numLock && m'.scrollLock == m.scrollLock
  {
    if scan == SCANCODE_CTRL_MAKE then m.(ctrl := true)
    else if scan == SCANCODE_CTRL_BREAK then m.(ctrl := false)
    else if scan == SCANCODE_ALT_MAKE then m.(alt := true)
    else if scan == SCANCODE_ALT_BREAK then m.(alt := false)
    else if scan == SCANCODE_LEFT_SHIFT_MAKE then
      if !extended then m.(shift := true, leftShift := true) else m
    else if scan == SCANCODE_RIGHT_SHIFT_MAKE then
      if !extended then m.(shift := true, rightShift := true) else m
    else if scan == SCANCODE_LEFT_SHIFT_BREAK then
      if !extended then m.(shift := false, leftShift := false) else m.(sysReq := false)
    else if scan == SCANCODE_RIGHT_SHIFT_BREAK then
      if !extended then m.(shift := false, rightShift := false) else m
    else if scan == SCANCODE_LEFT_LOGO_MAKE then m.(leftLogo := true)
    else if scan == SCANCODE_LEFT_LOGO_BREAK then m.(leftLogo := false)
    else if scan == SCANCODE_RIGHT_LOGO_MAKE then m.(rightLogo := true)
    else if scan == SCANCODE_RIGHT_LOGO_BREAK then m.(rightLogo := false)
    else if scan == SCANCODE_MENU_MAKE then m.(menu := true)
    else if scan == SCANCODE_MENU_BREAK then m.(menu := false)
    else m
  }

  predicate IsLockKey(scan: nat)
  {
    scan == SCANCODE_SYS_REQ_MAKE || scan == SCANCODE_CAPS_LOCK_MAKE
    || scan == SCANCODE_NUM_LOCK_MAKE || scan == SCANCODE_SCROLL_LOCK_MAKE
  }

  /**
   * The driver-state update for one popped code. The SysReq make case has
   * no break: it falls into the CapsLock toggle.
   */
  function SpecialKey(c: Console, scan: nat, extended: bool): (c': Console)
    ensures c'.recv == c.recv && c'.key == c.key
    ensures scan == SCANCODE_CAPS_LOCK_MAKE || scan == SCANCODE_SYS_REQ_MAKE ==>
              c'.mods.capsLock == !c.mods.capsLock && c'.mods.numLock == c.mods.numLock
              && c'.mods.scrollLock == c.mods.scrollLock
    ensures scan == SCANCODE_NUM_LOCK_MAKE ==> c'.mods == c.mods.(numLock := !c.mods.numLock)
    ensures scan == SCANCODE_SCROLL_LOCK_MAKE ==> c'.mods == c.mods.(scrollLock := !c.mods.scrollLock)
    ensures IsLockKey(scan) ==> c'.sent == c.sent + [KEYBOARD_SET_LEDS, LedCommand(c'.mods)]
    ensures !IsLockKey(scan) ==> c'.sent == c.sent && c'.mods == ModifierKey(c.mods, scan, extended)
  {
    var m := c.mods;
    if scan == SCANCODE_SYS_REQ_MAKE || scan == SCANCODE_CAPS_LOCK_MAKE then
      var m' := if scan == SCANCODE_SYS_REQ_MAKE && extended then m.(sysReq := true) else m;
      UpdateStatusLights(c.(mods := m'.(capsLock := !m'.capsLock)))
    else if scan == SCANCODE_NUM_LOCK_MAKE then UpdateStatusLights(c.(mods := m.(numLock := !m.numLock)))
    else if scan == SCANCODE_SCROLL_LOCK_MAKE then UpdateStatusLights(c.(mods := m.(scrollLock := !m.scrollLock)))
    else c.(mods := ModifierKey(m, scan, extended))
  }

  // ---------------------------------------------------------------------
  // Collecting one key's scancodes

  /** Where the scancode loop stopped: too few bytes buffered, or a make code (and whether E0 was seen). */
  datatype Collected = Waiting(c: Console) | Make(c: Console, scan: nat, extended: bool)

  /** The queue of c is what is left of the queue of d after some of its oldest bytes were taken. */
  predicate Consumed(d: Console, c: Console)
    requires ValidConsole(d) && ValidConsole(c)
  {
    var q, q' := Contents(d.recv.ring), Contents(c.recv.ring);
    |q'| <= |q| && q' == q[|q| - |q'|..]
  }

  /** The console with the n oldest buffered bytes popped. */
  function Drop(c: Console, n: nat): (d: Console)
    requires ValidConsole(c) && n <= c.recv.ring.count
    ensures ValidConsole(d) && Consumed(c, d)
    ensures Contents(d.recv.ring) == Contents(c.recv.ring)[n..]
    ensures d.recv.ring.count == c.recv.ring.count - n
    ensures d == c.(recv := c.recv.(ring := d.recv.ring))
  {
    AdvanceDrops(c.recv.ring, n);
    c.(recv := c.recv.(ring := Advance(c.recv.ring, n)))
  }

  /**
   * One pass of the KeyGetchar loop: peek at the buffered bytes, swallow a
   * Pause sequence, or pop one code (with its E0 prefix) and apply it to
   * the driver state.
   */
  function Step(c: Console, extended: bool): (r: Collected)
    requires ValidConsole(c)
    ensures ValidConsole(r.c) && Consumed(c, r.c)
    ensures r.c.key == c.key && r.c.recv.ctrled == c.recv.ctrled
    ensures r.Make? ==> r.c.recv.ring.count < c.recv.ring.count && (extended ==> r.extended)
  {
    var q := Contents(c.recv.ring);
    if |q| < 1 || (q[0] == SCANCODE_EXTENDED && |q| < 2) then
      ConsumedRefl(c);
      Waiting(c)
    else
      var pos := if q[0] == SCANCODE_EXTENDED then 1 else 0;
      if q[pos] == SCANCODE_EXTENDED1 then
        if |q| < 3 then
          ConsumedRefl(c);
          Waiting(c)
        else Waiting(Drop(c, 3))
      else
        var ext := extended || q[0] == SCANCODE_EXTENDED;
        var popped := Drop(c, pos + 1);
        Make(SpecialKey(popped, q[pos], ext), q[pos], ext)
  }

  /**
   * The loop of KeyGetchar: pop one key's scancodes at a time until a make
   * code comes up. `extended` once set stays set for the rest of the loop.
   */
  function Collect(c: Console, extended: bool): (r: Collected)
    requires ValidConsole(c)
    ensures ValidConsole(r.c) && Consumed(c, r.c)
    ensures r.c.key == c.key && r.c.recv.ctrled == c.recv.ctrled
    ensures r.Make? ==> r.scan < SCANCODE_MAX_MAKE && (extended ==> r.extended)
    decreases c.recv.ring.count
  {
    var s := Step(c, extended);
    if s.Make? && s.scan >= SCANCODE_MAX_MAKE then
      var r := Collect(s.c, s.extended);
      ConsumedTrans(c, s.c, r.c);
      r
    else s
  }

  lemma ConsumedRefl(c: Console)
    requires ValidConsole(c)
    ensures Consumed(c, c)
  {
    var q := Contents(c.recv.ring);
    assert q[|q| - |q|..] == q;
  }

  lemma ConsumedTrans(a: Console, b: Console, c: Console)
    requires ValidConsole(a) && ValidConsole(b) && ValidConsole(c)
    requires Consumed(a, b) && Consumed(b, c)
    ensures Consumed(a, c)
  {
  }

  // ---------------------------------------------------------------------
  // Translation

  /** The character after CapsLock: letters swap to the other column of their row. */
  function CapsAdjust(e: Entry, ch: nat, capsLock: bool): nat
  {
    if !capsLock then ch
    else if IsLower(ch) then e.shiftUnicodeChar
    else if IsUpper(ch) then e.unicodeChar
    else ch
  }

  /** Ctrl with a letter gives its control code 1..26. */
  function CtrlAdjust(ch: nat, ctrled: bool): nat
  {
    if !ctrled then ch
    else if IsLower(ch) then ch - 'a' as nat + 1
    else if IsUpper(ch) then ch - 'A' as nat + 1
    else ch
  }

  /** The character a table row gives under the modifiers held. */
  function EntryChar(e: Entry, m: Modifiers, ctrled: bool): nat
  {
    var ch := if m.shift then e.shiftUnicodeChar else e.unicodeChar;
    CtrlAdjust(CapsAdjust(e, ch, m.capsLock), ctrled)
  }

  /** The EFI key for a make code, or the key already held when the code is not in the table. */
  function Translate(c: Console, scan: nat, extended: bool): (c': Console)
    ensures c'.recv == c.recv && c'.sent == c.sent && c'.shiftState == c.shiftState && c'.toggleState == c.toggleState
    ensures Lookup(scan).None? ==> c'.key == c.key && c'.mods == c.mods
    ensures Lookup(scan).Some? ==> c'.key.scanCode == Lookup(scan).value.efiScanCode
  {
    match Lookup(scan)
    case None => c
    case Some(e) =>
      var m := c.mods;
      var ch := if m.shift then e.shiftUnicodeChar else e.unicodeChar;
      var m' := if m.shift && IsUpper(ch) then m.(leftShift := false, rightShift := false) else m;
      c.(mods := m', key := Key(e.efiScanCode, EntryChar(e, m, c.recv.ctrled)))
  }

  /** Keypad keys give the digit with NumLock (and no Shift, not extended), the cursor key otherwise. */
  function KeypadAdjust(c: Console, scan: nat, extended: bool): (c': Console)
    ensures c' == c.(key := c'.key)
  {
    if 0x47 <= scan <= 0x53 then
      if c.mods.numLock && !c.mods.shift && !extended then c.(key := c.key.(scanCode := SCAN_NULL))
      else if scan != 0x4A && scan != 0x4E then c.(key := c.key.(unicodeChar := 0))
      else c
    else c
  }

  /**
   * With NumLock on, Shift up and no E0 prefix, a keypad key gives its
   * character (a digit or a sign) with no scan code.
   */
  lemma KeypadDigit(c: Console, scan: nat)
    requires 0x47 <= scan <= 0x53
    requires c.mods.numLock && !c.mods.shift
    ensures KeypadAdjust(Translate(c, scan, false), scan, false).key == Key(SCAN_NULL, KEYPAD_ROWS[scan - 0x47].unicodeChar)
  {
    KeypadRow(scan);
  }

  /**
   * Otherwise a keypad key other than '-' and '+' gives its cursor key
   * with no character.
   */
  lemma KeypadCursor(c: Console, scan: nat, extended: bool)
    requires 0x47 <= scan <= 0x53 && scan != 0x4A && scan != 0x4E
    requires !(c.mods.numLock && !c.mods.shift && !extended)
    ensures KeypadAdjust(Translate(c, scan, extended), scan, extended).key == Key(KEYPAD_ROWS[scan - 0x47].efiScanCode, 0)
  {
    KeypadRow(scan);
  }

  function SetIf(state: nat, cond: bool, bit: nat): nat
  {
    if cond then Bits.Or(state, bit) else state
  }

  /** The shift and toggle state recorded with a key. */
  function RecordState(c: Console, extended: bool): (c': Console)
    ensures c' == c.(shiftState := c'.shiftState, toggleState := c'.toggleState)
  {
    var m := c.mods;
    var s1 := SetIf(c.shiftState, m.ctrl, if extended then EFI_RIGHT_CONTROL_PRESSED else EFI_LEFT_CONTROL_PRESSED);
    var s2 := SetIf(s1, m.alt, if extended then EFI_RIGHT_ALT_PRESSED else EFI_LEFT_ALT_PRESSED);
    var s3 := SetIf(s2, m.leftShift, EFI_LEFT_SHIFT_PRESSED);
    var s4 := SetIf(s3, m.rightShift, EFI_RIGHT_SHIFT_PRESSED);
    var s5 := SetIf(s4, m.leftLogo, EFI_LEFT_LOGO_PRESSED);
    var s6 := SetIf(s5, m.rightLogo, EFI_RIGHT_LOGO_PRESSED);
    var s7 := SetIf(s6, m.menu, EFI_MENU_KEY_PRESSED);
    var s := SetIf(s7, m.sysReq, EFI_SYS_REQ_PRESSED);
    var t1 := SetIf(c.toggleState, m.capsLock, EFI_CAPS_LOCK_ACTIVE);
    var t2 := SetIf(t1, m.numLock, EFI_NUM_LOCK_ACTIVE);
    var t := SetIf(t2, m.scrollLock, EFI_SCROLL_LOCK_ACTIVE);
    c.(shiftState := s, toggleState := t)
  }

  /** OR-ing in bit j when `cond` holds sets bit j and keeps every other bit. */
  lemma SetIfBit(state: nat, cond: bool, j: nat, k: nat)
    ensures Bits.Bit(SetIf(state, cond, Bits.Pow2(j)), k) <==> Bits.Bit(state, k) || (cond && j == k)
  {
    if cond {
      Bits.BitOr(state, Bits.Pow2(j), k);
      Bits.BitPow2(j, k);
    }
  }

  /**
   * The toggle state recorded with a key: the CapsLock, NumLock and
   * ScrollLock bits (2, 1, 0) are set for every lock that is on, and no
   * bit already set is cleared.
   */
  lemma RecordToggles(c: Console, extended: bool, k: nat)
    ensures var t := RecordState(c, extended).toggleState;
    && (Bits.Bit(t, 2) <==> Bits.Bit(c.toggleState, 2) || c.mods.capsLock)
    && (Bits.Bit(t, 1) <==> Bits.Bit(c.toggleState, 1) || c.mods.numLock)
    && (Bits.Bit(t, 0) <==> Bits.Bit(c.toggleState, 0) || c.mods.scrollLock)
    && (k > 2 ==> (Bits.Bit(t, k) <==> Bits.Bit(c.toggleState, k)))
  {
    var m := c.mods;
    assert Bits.Pow2(0) == EFI_SCROLL_LOCK_ACTIVE && Bits.Pow2(1) == EFI_NUM_LOCK_ACTIVE && Bits.Pow2(2) == EFI_CAPS_LOCK_ACTIVE;
    var t1 := SetIf(c.toggleState, m.capsLock, EFI_CAPS_LOCK_ACTIVE);
    var t2 := SetIf(t1, m.numLock, EFI_NUM_LOCK_ACTIVE);
    forall i: nat | i == k || i <= 2
      ensures Bits.Bit(RecordState(c, extended).toggleState, i)
          <==> Bits.Bit(c.toggleState, i) || (m.capsLock && i == 2) || (m.numLock && i == 1) || (m.scrollLock && i == 0)
    {
      SetIfBit(c.toggleState, m.capsLock, 2, i);
      SetIfBit(t1, m.numLock, 1, i);
      SetIfBit(t2, m.scrollLock, 0, i);
    }
  }

  /** The shift state after the Ctrl, Alt and Shift steps of RecordState. */
  function HandShifts(c: Console, extended: bool): nat
  {
    var m := c.mods;
    var s1 := SetIf(c.shiftState, m.ctrl, if extended then EFI_RIGHT_CONTROL_PRESSED else EFI_LEFT_CONTROL_PRESSED);
    var s2 := SetIf(s1, m.alt, if extended then EFI_RIGHT_ALT_PRESSED else EFI_LEFT_ALT_PRESSED);
    var s3 := SetIf(s2, m.leftShift, EFI_LEFT_SHIFT_PRESSED);
    SetIf(s3, m.rightShift, EFI_RIGHT_SHIFT_PRESSED)
  }

  lemma HandShiftBits(c: Console, extended: bool, i: nat)
    ensures Bits.Bit(HandShifts(c, extended), i)
        <==> Bits.Bit(c.shiftState, i) || (c.mods.ctrl && i == (if extended then 2 else 3))
             || (c.mods.alt && i == (if extended then 4 else 5))
             || (c.mods.leftShift && i == 1) || (c.mods.rightShift && i == 0)
  {
    var m := c.mods;
    var cj := if extended then 2 else 3;
    var aj := if extended then 4 else 5;
    assert Bits.Pow2(0) == EFI_RIGHT_SHIFT_PRESSED && Bits.Pow2(1) == EFI_LEFT_SHIFT_PRESSED;
    assert Bits.Pow2(2) == EFI_RIGHT_CONTROL_PRESSED && Bits.Pow2(3) == EFI_LEFT_CONTROL_PRESSED;
    assert Bits.Pow2(4) == EFI_RIGHT_ALT_PRESSED && Bits.Pow2(5) == EFI_LEFT_ALT_PRESSED;
    var s1 := SetIf(c.shiftState, m.ctrl, Bits.Pow2(cj));
    var s2 := SetIf(s1, m.alt, Bits.Pow2(aj));
    var s3 := SetIf(s2, m.leftShift, Bits.Pow2(1));
    assert HandShifts(c, extended) == SetIf(s3, m.rightShift, Bits.Pow2(0));
    SetIfBit(c.shiftState, m.ctrl, cj, i);
    SetIfBit(s1, m.alt, aj, i);
    SetIfBit(s2, m.leftShift, 1, i);
    SetIfBit(s3, m.rightShift, 0, i);
  }

  /**
   * The shift state recorded with a key: every modifier held sets its bit
   * (Ctrl and Alt on the right-hand bit after an E0 prefix), and no bit
   * already set is cleared.
   */
  lemma RecordShifts(c: Console, extended: bool, k: nat)
    ensures var s := RecordState(c, extended).shiftState;
    var m := c.mods;
    && (Bits.Bit(c.shiftState, k) ==> Bits.Bit(s, k))
    && (m.ctrl ==> Bits.Bit(s, if extended then 2 else 3))
    && (m.alt ==> Bits.Bit(s, if extended then 4 else 5))
    && (m.leftShift ==> Bits.Bit(s, 1)) && (m.rightShift ==> Bits.Bit(s, 0))
    && (m.leftLogo ==> Bits.Bit(s, 7)) && (m.rightLogo ==> Bits.Bit(s, 6))
    && (m.menu ==> Bits.Bit(s, 8)) && (m.sysReq ==> Bits.Bit(s, 9))
  {
    var m := c.mods;
    assert Bits.Pow2(6) == EFI_RIGHT_LOGO_PRESSED && Bits.Pow2(7) == EFI_LEFT_LOGO_PRESSED;
    assert Bits.Pow2(8) == EFI_MENU_KEY_PRESSED && Bits.Pow2(9) == EFI_SYS_REQ_PRESSED;
    var s4 := HandShifts(c, extended);
    var s5 := SetIf(s4, m.leftLogo, Bits.Pow2(7));
    var s6 := SetIf(s5, m.rightLogo, Bits.Pow2(6));
    var s7 := SetIf(s6, m.menu, Bits.Pow2(8));
    assert RecordState(c, extended).shiftState == SetIf(s7, m.sysReq, Bits.Pow2(9));
    forall i: nat | i == k || i <= 9
      ensures Bits.Bit(RecordState(c, extended).shiftState, i)
          <==> Bits.Bit(s4, i) || (m.leftLogo && i == 7) || (m.rightLogo && i == 6)
               || (m.menu && i == 8) || (m.sysReq && i == 9)
    {
      SetIfBit(s4, m.leftLogo, 7, i);
      SetIfBit(s5, m.rightLogo, 6, i);
      SetIfBit(s6, m.menu, 8, i);
      SetIfBit(s7, m.sysReq, 9, i);
    }
    forall i: nat | i == k || i <= 9
      ensures Bits.Bit(s4, i)
          <==> Bits.Bit(c.shiftState, i) || (m.ctrl && i == (if extended then 2 else 3))
               || (m.alt && i == (if extended then 4 else 5))
               || (m.leftShift && i == 1) || (m.rightShift && i == 0)
    {
      HandShiftBits(c, extended, i);
    }
  }

  /**
   * KeyGetchar: receive one byte from the controller, collect one key and
   * translate it. NOT_READY when the buffer runs out, after a Pause
   * sequence, and when the key translates to nothing.
   */
  function KeyGetchar(c: Console, statusRegister: nat, data: nat): (r: (Status, Console))
    requires ValidConsole(c)
    ensures r.0 == Success || r.0 == NotReady
    ensures ValidConsole(r.1)
    ensures var received := ReceiveByte(c.recv, statusRegister, data);
      Consumed(c.(recv := received), r.1)
    ensures r.0 == Success ==> r.1.key != Key(SCAN_NULL, 0)
  {
    var received := c.(recv := ReceiveByte(c.recv, statusRegister, data));
    match Collect(received, false)
    case Waiting(c1) => (NotReady, c1)
    case Make(c1, scan, extended) =>
      if extended && scan == 0x35 then
        var c2 := c1.(key := Key(SCAN_NULL, '/' as nat));
        ConsumedSameQueue(received, c1, c2);
        (Success, c2)
      else
        var c2 := KeypadAdjust(Translate(c1, scan, extended), scan, extended);
        ConsumedSameQueue(received, c1, c2);
        if c2.key == Key(SCAN_NULL, 0) then (NotReady, c2)
        else
          var c3 := RecordState(c2, extended);
          ConsumedSameQueue(received, c1, c3);
          (Success, c3)
  }

  /** A console sharing c's receive state has consumed as much as c. */
  lemma ConsumedSameQueue(d: Console, c: Console, c': Console)
    requires ValidConsole(d) && ValidConsole(c) && Consumed(d, c) && c'.recv == c.recv
    ensures ValidConsole(c') && Consumed(d, c')
  {
  }

  // ---------------------------------------------------------------------
  // Properties of the decoder

  /** Console c with a queue holding exactly bs (ring placed at start 0). */
  function WithQueue(c: Console, bs: seq<nat>): (d: Console)
    requires |bs| <= KEYBOARD_BUFFER_MAX_COUNT
    ensures ValidConsole(d) && Contents(d.recv.ring) == bs
  {
    var data := bs + seq(KEYBOARD_BUFFER_MAX_COUNT - |bs|, _ => 0);
    var r := Ring(data, 0, (|bs| + KEYBOARD_BUFFER_MAX_COUNT - 1) % KEYBOARD_BUFFER_MAX_COUNT, |bs|);
    assert forall k :: 0 <= k < |bs| ==> Contents(r)[k] == data[k] == bs[k];
    c.(recv := c.recv.(ring := r))
  }

  /** An E1 (Pause) prefix takes exactly three bytes off the queue and yields no key. */
  lemma PauseConsumesThree(c: Console, rest: seq<nat>, b1: nat, b2: nat)
    requires |rest| + 3 <= KEYBOARD_BUFFER_MAX_COUNT
    ensures var d := WithQueue(c, [SCANCODE_EXTENDED1, b1, b2] + rest);
      var r := Collect(d, false);
      r.Waiting? && Contents(r.c.recv.ring) == rest && r.c.mods == d.mods && r.c.sent == d.sent
  {
    var d := WithQueue(c, [SCANCODE_EXTENDED1, b1, b2] + rest);
    AdvanceDrops(d.recv.ring, 3);
    assert ([SCANCODE_EXTENDED1, b1, b2] + rest)[3..] == rest;
  }

  /** A Pause prefix with fewer than three bytes buffered leaves everything as it was. */
  lemma ShortPauseWaits(c: Console, b: seq<nat>)
    requires |b| <= 1
    ensures var d := WithQueue(c, [SCANCODE_EXTENDED1] + b);
      Collect(d, false) == Waiting(d)
  {
  }

  /** E0 35 is the keypad slash: SCAN_NULL with '/'. */
  lemma KeypadSlash(c: Console, rest: seq<nat>)
    requires |rest| + 2 <= KEYBOARD_BUFFER_MAX_COUNT
    ensures var d := WithQueue(c, [SCANCODE_EXTENDED, 0x35] + rest);
      var r := KeyGetchar(d, 0, 0);
      r.0 == Success && r.1.key == Key(SCAN_NULL, '/' as nat) && Contents(r.1.recv.ring) == rest
  {
    var d := WithQueue(c, [SCANCODE_EXTENDED, 0x35] + rest);
    AdvanceDrops(d.recv.ring, 2);
    assert ([SCANCODE_EXTENDED, 0x35] + rest)[2..] == rest;
  }

  /**
   * The SysReq make code without E0 is the keypad '*' key; it still falls
   * into the CapsLock case, so it toggles CapsLock and updates the lights.
   */
  lemma KeypadStarTogglesCapsLock(c: Console)
    ensures SpecialKey(c, SCANCODE_SYS_REQ_MAKE, false).mods.capsLock == !c.mods.capsLock
    ensures SpecialKey(c, SCANCODE_SYS_REQ_MAKE, false).mods.sysReq == c.mods.sysReq
    ensures SpecialKey(c, SCANCODE_SYS_REQ_MAKE, true).mods.sysReq
  {
  }

  /**
   * The make code of a letter row of the table, without Ctrl held: the
   * upper-case letter exactly when Shift and CapsLock disagree, the
   * lower-case letter otherwise.
   */
  lemma LetterCase(c: Console, k: nat, extended: bool)
    requires k < |TABLE| && LetterRow(TABLE[k])
    requires !c.recv.ctrled
    ensures var e := TABLE[k];
      Translate(c, e.scanCode, extended).key.unicodeChar
        == if c.mods.shift != c.mods.capsLock then e.shiftUnicodeChar else e.unicodeChar
  {
    var e := TABLE[k];
    LookupFindsRow(k);
    assert Translate(c, e.scanCode, extended).key.unicodeChar == EntryChar(e, c.mods, c.recv.ctrled);
  }

  /** With Ctrl held, letters of either case become control codes 1..26. */
  lemma CtrlLetter(c: Console, k: nat, extended: bool)
    requires k < |TABLE| && LetterRow(TABLE[k])
    requires c.recv.ctrled
    ensures var ch := Translate(c, TABLE[k].scanCode, extended).key.unicodeChar;
      1 <= ch <= 26 && ch == TABLE[k].unicodeChar - 'a' as nat + 1
  {
    var e := TABLE[k];
    LookupFindsRow(k);
    assert Translate(c, e.scanCode, extended).key.unicodeChar == EntryChar(e, c.mods, true);
    CtrlLetterRow(e, c.mods);
  }

  lemma CtrlLetterRow(e: Entry, m: Modifiers)
    requires LetterRow(e)
    ensures EntryChar(e, m, true) == e.unicodeChar - 'a' as nat + 1
  {
  }

  /** The make code of a row without letters: CapsLock and Ctrl do not change its character. */
  lemma NonLetterUnchanged(c: Console, k: nat, extended: bool)
    requires k < |TABLE|
    requires var e := TABLE[k];
      !IsLower(e.unicodeChar) && !IsLower(e.shiftUnicodeChar) && !IsUpper(e.unicodeChar) && !IsUpper(e.shiftUnicodeChar)
    ensures var e := TABLE[k];
      Translate(c, e.scanCode, extended).key.unicodeChar == if c.mods.shift then e.shiftUnicodeChar else e.unicodeChar
  {
    var e := TABLE[k];
    LookupFindsRow(k);
    assert Translate(c, e.scanCode, extended).key.unicodeChar == EntryChar(e, c.mods, c.recv.ctrled);
  }

  /** A make code the table does not know, with no key pending, yields NOT_READY. */
  lemma UnknownCodeNotReady(c: Console, scan: nat, extended: bool)
    requires Lookup(scan).None? && c.key == Key(SCAN_NULL, 0)
    ensures KeypadAdjust(Translate(c, scan, extended), scan, extended).key == Key(SCAN_NULL, 0)
  {
  }
}
