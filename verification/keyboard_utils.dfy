/**
 * Classification of keyboard events: which key codes print a character,
 * whether Ctrl (or Cmd) is held, and which keys open a cell editor.
 */
module KeyboardUtils {

  /** The parts of a browser keyboard event the grid looks at. */
  datatype KeyEvent = KeyEvent(key: string, keyCode: int, ctrlKey: bool, metaKey: bool, shiftKey: bool)

  /**
   * Key codes that type a character: digits, space, return, letters, the
   * numeric keypad and the punctuation keys `;=,-./\`` and `[\]'`.
   */
  predicate IsKeyPrintable(keyCode: int)
  {
    (keyCode > 47 && keyCode < 58)
    || keyCode == 32 || keyCode == 13
    || (keyCode > 64 && keyCode < 91)
    || (keyCode > 95 && keyCode < 112)
    || (keyCode > 185 && keyCode < 193)
    || (keyCode > 218 && keyCode < 223)
  }

  /** Ctrl or Meta is held, and the key pressed is not the Control key itself. */
  predicate IsCtrlKeyHeldDown(e: KeyEvent)
  {
    (e.ctrlKey || e.metaKey) && e.key != "Control"
  }

  /** Keys that, pressed on an editable cell, open its editor. */
  predicate IsDefaultCellInput(e: KeyEvent)
  {
    IsKeyPrintable(e.keyCode) || e.key in ["Enter", "F2", "Backspace", "Delete"]
  }

  /** The printable key codes are exactly these inclusive ranges. */
  lemma PrintableRanges(keyCode: int)
    ensures IsKeyPrintable(keyCode) <==>
      (48 <= keyCode <= 57)              // digits 0-9
      || keyCode == 32 || keyCode == 13  // space and return
      || (65 <= keyCode <= 90)           // letters A-Z
      || (96 <= keyCode <= 111)          // numeric keypad
      || (186 <= keyCode <= 192)         // ;=,-./`
      || (219 <= keyCode <= 222)         // [\]'
  {
  }

  /** Navigation and modifier keys do not print. */
  lemma NavigationKeysNotPrintable(keyCode: int)
    requires keyCode in {8, 9, 16, 17, 18, 27, 33, 34, 35, 36, 37, 38, 39, 40, 46} || 112 <= keyCode <= 123
    ensures !IsKeyPrintable(keyCode)
  {
  }

  /** An arrow key event neither types nor opens an editor. */
  lemma ArrowKeysAreNotCellInput(e: KeyEvent)
    requires e.key in ["ArrowLeft", "ArrowUp", "ArrowRight", "ArrowDown"]
    requires 37 <= e.keyCode <= 40
    ensures !IsDefaultCellInput(e)
  {
  }

  /** Pressing the Control key alone, with its own modifier flag set, is not a Ctrl chord. */
  lemma ControlAloneIsNotChord(e: KeyEvent)
    requires e.key == "Control"
    ensures !IsCtrlKeyHeldDown(e)
  {
  }

  /**
   * Ctrl or Cmd held with any key other than Control makes a chord; with
   * neither held there is no chord, whatever the key.
   */
  lemma CtrlChordCases(e: KeyEvent)
    ensures e.key != "Control" && (e.ctrlKey || e.metaKey) ==> IsCtrlKeyHeldDown(e)
    ensures !e.ctrlKey && !e.metaKey ==> !IsCtrlKeyHeldDown(e)
    ensures IsCtrlKeyHeldDown(e) ==> e.key != "Control"
  {
  }

  /**
   * Enter, F2, Backspace and Delete open the editor whatever their key code;
   * any other key opens it exactly when its key code is in the printable
   * ranges.
   */
  lemma CellInputCases(e: KeyEvent)
    ensures e.key == "Enter" || e.key == "F2" || e.key == "Backspace" || e.key == "Delete" ==> IsDefaultCellInput(e)
    ensures e.key != "Enter" && e.key != "F2" && e.key != "Backspace" && e.key != "Delete" ==>
      (IsDefaultCellInput(e) <==>
         (48 <= e.keyCode <= 57) || e.keyCode == 32 || e.keyCode == 13 || (65 <= e.keyCode <= 90)
         || (96 <= e.keyCode <= 111) || (186 <= e.keyCode <= 192) || (219 <= e.keyCode <= 222))
  {
  }
}
