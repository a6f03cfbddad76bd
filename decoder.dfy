/**
 * The modifier-tracking keyboard decoder `KBInputDecoder` of the shell.
 * `Flags` is the decoder's state as a value; `Decode` is the transition of
 * `parse_char` on that value, and the class `KBInputDecoder` holds the same
 * four flags as fields that `ParseChar` updates in place.
 */
module Decoding {
  import opened Keyboard

  datatype Flags = Flags(lshift: bool, rshift: bool, capsLock: bool, numLock: bool)

  /** The state a fresh decoder starts in. */
  const Cleared := Flags(false, false, false, false)

  /** The outcome of decoding one event: the new flags and the character, if any. */
  datatype Decoded = Decoded(flags: Flags, ch: Option<char>)

  /** Whether `ev` is the return key being released while "shift" is not held,
      where "shift" (`shift()` of the decoder) means BOTH shift keys are held.
      It reads the flags and changes nothing. */
  function Ret(f: Flags, ev: KeyboardEvent): (b: bool)
    ensures ev.Down? ==> !b
    ensures b ==> ev == Up(Control(Enter))
    ensures ev == Up(Control(Enter)) ==> (b <==> !f.lshift || !f.rshift)
  {
    match ev
    case Up(Control(key)) =>
      (match key
       case Enter => !(f.lshift && f.rshift)
       case _ => false)
    case _ => false
  }

  /** One transition of the decoder. Shift key-down/up sets/clears its own flag,
      caps/num lock key-down flips its own flag, every other modifier and every
      other key-up is inert, and a key-down of any non-modifier key yields the
      table's character for the flags as they are at that moment. */
  function Decode(f: Flags, ev: KeyboardEvent, table: KeyTable): (r: Decoded)
    ensures r.ch.Some? <==> IsKeyPress(ev)
    ensures r.ch.Some? ==>
              r.flags == f && r.ch.value == table(ev.key, f.lshift, f.rshift, f.capsLock, f.numLock)
    ensures r.flags.lshift ==
              if ev == Down(Modifier(LeftShift)) then true
              else if ev == Up(Modifier(LeftShift)) then false
              else f.lshift
    ensures r.flags.rshift ==
              if ev == Down(Modifier(RightShift)) then true
              else if ev == Up(Modifier(RightShift)) then false
              else f.rshift
    ensures r.flags.capsLock == (f.capsLock != (ev == Down(Modifier(CapsLock))))
    ensures r.flags.numLock == (f.numLock != (ev == Down(Modifier(NumLock))))
  {
    match ev
    case Up(Modifier(key)) =>
      (match key
       case LeftShift => Decoded(f.(lshift := false), None)
       case RightShift => Decoded(f.(rshift := false), None)
       case _ => Decoded(f, None))
    case Up(_) => Decoded(f, None)
    case Down(Modifier(key)) =>
      (match key
       case LeftShift => Decoded(f.(lshift := true), None)
       case RightShift => Decoded(f.(rshift := true), None)
       case CapsLock => Decoded(f.(capsLock := !f.capsLock), None)
       case NumLock => Decoded(f.(numLock := !f.numLock), None)
       case _ => Decoded(f, None))
    case Down(letter) =>
      Decoded(f, Some(table(letter, f.lshift, f.rshift, f.capsLock, f.numLock)))
  }

  /** The decoder object the shell's main loop owns and mutates. */
  class KBInputDecoder {
    var lshift: bool
    var rshift: bool
    var capsLock: bool
    var numLock: bool

    /** The four fields as a `Flags` value. */
    function State(): Flags
      reads this
    {
      Flags(lshift, rshift, capsLock, numLock)
    }

    /** `KBInputDecoder::new`: all four flags false. */
    constructor ()
      ensures !lshift && !rshift && !capsLock && !numLock
      ensures State() == Cleared
    {
      lshift, rshift, capsLock, numLock := false, false, false, false;
    }

    /** `parse_char`: updates the fields in place as `Decode` prescribes and
        returns the character `Decode` yields. */
    method ParseChar(ev: KeyboardEvent, table: KeyTable) returns (r: Option<char>)
      modifies this
      ensures State() == Decode(old(State()), ev, table).flags
      ensures r == Decode(old(State()), ev, table).ch
    {
      match ev {
        case Up(Modifier(key)) =>
          match key {
            case LeftShift =>
              lshift := false;
              r := None;
            case RightShift =>
              rshift := false;
              r := None;
            case _ =>
              r := None;
          }
        case Up(_) =>
          r := None;
        case Down(Modifier(key)) =>
          match key {
            case LeftShift =>
              lshift := true;
              r := None;
            case RightShift =>
              rshift := true;
              r := None;
            case CapsLock =>
              capsLock := !capsLock;
              r := None;
            case NumLock =>
              numLock := !numLock;
              r := None;
            case _ =>
              r := None;
          }
        case Down(letter) =>
          r := Some(table(letter, lshift, rshift, capsLock, numLock));
      }
    }
  }
}
