/**
 * Keyboard events as the shell receives them from the kernel's event stream,
 * already interpreted as typed values, and the external key-code table.
 */
module Keyboard {

  datatype Option<+T> = None | Some(value: T)

  /** The modifier keys the decoder tracks; every other modifier variant of
      the input crate is `OtherModifier`, distinguished by an opaque code. */
  datatype ModifierKey = LeftShift | RightShift | CapsLock | NumLock | OtherModifier(code: nat)

  /** Control keys; only Enter matters to the shell. */
  datatype ControlKey = Enter | OtherControl(code: nat)

  /** A virtual key code: a modifier, a control key, or any other key
      (letters, digits, punctuation, ...). */
  datatype VirtualKeyCode =
    | Modifier(modifier: ModifierKey)
    | Control(control: ControlKey)
    | Other(code: nat)

  datatype KeyboardEvent = Up(key: VirtualKeyCode) | Down(key: VirtualKeyCode)

  /** The US keymap lookup: a key and the four modifier flags
      (left shift, right shift, caps lock, num lock) give one character. */
  type KeyTable = (VirtualKeyCode, bool, bool, bool, bool) -> char

  /** A key-down of a key that is not a modifier: the only event that types a character. */
  predicate IsKeyPress(ev: KeyboardEvent) {
    ev.Down? && !ev.key.Modifier?
  }
}
