# Keyboard decoder and console loop of the fioxa user-space shell

This project models the core of the shell in `shell/src/main.rs`, which runs in user space on the fioxa kernel:

- **`KBInputDecoder`** tracks four modifier flags: left shift, right shift, caps lock and num lock. On each keyboard event it updates them and, for a key-down of a non-modifier key, looks the key up in the US keymap with the current flags.
- **The console loop** polls the kernel's event stream. A decoded character is appended to the current line and echoed. When Enter is released (unless both shift keys are held), the line is printed followed by the prompt `"\n> "` and a new, empty line starts.

The model has four files.

- `keyboard.dfy` (module `Keyboard`) holds the typed keyboard events and the key table:
  - the `KeyboardEvent`, `VirtualKeyCode`, `ModifierKey` and `ControlKey` datatypes;
  - `KeyTable`, a total function standing for `USKeymap::get_unicode`.
- `decoder.dfy` (module `Decoding`) holds the decoder:
  - `Flags` is the decoder state as a value.
  - `Ret` is the read-only query `ret`, with `shift()` written into it as "both shift flags set". Both take `&self`, so `Ret` is a function of the flags and cannot change them.
  - `Decode` is the transition `parse_char` makes.
  - The class `KBInputDecoder` has the four flags as mutable fields. Its constructor is `new`. Its method `ParseChar` updates the fields in place and is proved to do exactly what `Decode` prescribes.
- `console.dfy` (module `Console`) holds the loop:
  - `Step` is one loop iteration on a `Session`: the flags, the line, and every string handed to `print!` so far.
  - `Run` folds `Step` over a finite sequence of polls. A poll is `None` when the stream is empty.
  - `RunIteration` is the loop body acting on the decoder object and the line.
  - `Shell` is `main` run over a finite prefix of the event stream. It is proved to compute `Run`.
- `properties.dfy` (module `Properties`) holds the lemmas over event sequences:
  - lock-toggle parity;
  - what key-up-only streams can do;
  - typing without modifiers;
  - the concrete scenarios (a shifted key followed by a return, return under both shifts, return under one shift).

The "shift" that suppresses a return is true only when BOTH shift keys are held (`shift()` at `shell/src/main.rs:63-65`). The doc comment on `ret` (`shell/src/main.rs:67-68`) says that holding shift suppresses the return. The model follows the code: holding one shift alone does not suppress it, as `OneShiftDoesNotSuppressReturn` shows.

In the loop, `ret` is evaluated after `parse_char` has already updated the decoder (`shell/src/main.rs:26-29`). `Step` does the same: it asks `Ret` of the flags after the decode. Its contract shows that this agrees with the flags from before the event, because releasing Enter never changes the flags.

A key-up-only stream does not always leave the decoder unchanged: releasing a shift that is held clears its flag. `ReleasesNeverType` states the exact effect. Only the flag of a shift that was held AND is released in the stream is cleared. Everything else, caps lock and num lock included, stays as it was, and no character is ever typed.

## Model

| member | source | states |
|---|---|---|
| `Decoding.KBInputDecoder.constructor` | shell/src/main.rs:54-61 | a new decoder has all four flags false (its state is `Cleared`) |
| `Decoding.Ret` | shell/src/main.rs:63-77 | `ret`, including `shift()` (true only when both shift flags are set): never true for a key-down; when true the event is Enter's key-up; for Enter's key-up it is true exactly when not both shifts are held |
| `Decoding.Decode` | shell/src/main.rs:79-120 | a character comes out exactly for a key-down of a non-modifier key (Enter included): it is the table's character for that key and the current flags, and the flags are unchanged. Shift down/up sets/clears only that shift's flag. A caps/num lock key-down flips only that lock's flag. Every other event leaves every flag as it was |
| `Decoding.KBInputDecoder.ParseChar` | shell/src/main.rs:79-120 | updating the four fields in place gives exactly the flags `Decode` gives, and the returned character is `Decode`'s |
| `Console.Step` | shell/src/main.rs:23-33 | one iteration advances the decoder by one decode (by none on an empty poll). A key press appends the table's character to the line and echoes it. Enter's key-up without both shifts held prints the line followed by the prompt and empties the line, leaving the flags as they were. Anything else leaves line and output unchanged, so no step both appends and commits |
| `Console.Run` | shell/src/main.rs:22-37 | over a finite stream of polls, output is append-only and grows by at most one string per poll |
| `Console.RunIteration` | shell/src/main.rs:23-36 | the loop body on the decoder object and the line leaves exactly the flags, line and printed strings that `Step` prescribes |
| `Console.Shell` | shell/src/main.rs:18-37 | `main`, started with a new decoder and an empty line and run over a finite prefix of the stream, ends in the state `Run` gives from start-up |
| `Properties.RunAppend` | shell/src/main.rs:22-37 | running two stretches of polls in order is running their concatenation |
| `Properties.LockToggleParity` | shell/src/main.rs:102-109 | after n key-downs of caps lock (num lock), its flag has flipped exactly when n is odd; the other flags, the line and the output are unchanged |
| `Properties.DoubleToggleRestores` | shell/src/main.rs:102-109 | two consecutive key-downs of a lock key restore the whole session |
| `Properties.OddTogglesFromClearedSetLock` | shell/src/main.rs:102-109 | from start-up, an odd number of lock key-downs leaves the lock on |
| `Properties.ReleasesNeverType` | shell/src/main.rs:81-92 | a stream of key-ups and empty polls never types a character: the line stays or is committed to empty. A shift flag ends true exactly when it was held and its release is not in the stream. Caps and num lock never change |
| `Properties.UnmodifiedTyping` | shell/src/main.rs:112-118 | without events on the four tracked modifiers and without Enter's key-up, the flags never change and the line grows by exactly the table's characters for the key presses under the starting flags |
| `Properties.FlagsFixedWithoutModifiers` | shell/src/main.rs:81-92 | without events on the four tracked modifiers (returns and all other key-ups allowed), the flags never change |
| `Properties.UnmodifiedTypingFromStart` | shell/src/main.rs:112-118 | from start-up, without events on the four tracked modifiers (returns allowed), the flags are cleared after every poll and every key press appends the table's character with every flag false |
| `Properties.SingleKeyPress` | shell/src/main.rs:26-28 | one key press from start-up gives a line of the unmodified character, echoed once |
| `Properties.ShiftedKeyThenReturn` | shell/src/main.rs:26-32 | left shift down, a key, left shift up, Enter up: the key is typed with left shift only, then the line is printed with the prompt and reset to empty, with all flags false |
| `Properties.ReturnUnderBothShiftsIsInert` | shell/src/main.rs:26-29 | in any session with both shifts held, releasing Enter leaves flags, line and output exactly as they were |
| `Properties.BothShiftsSuppressReturn` | shell/src/main.rs:63-77 | from start-up, left shift down, right shift down, then Enter up: both shift flags end set, the line is empty and nothing is printed |
| `Properties.OneShiftDoesNotSuppressReturn` | shell/src/main.rs:63-77 | from start-up, one shift down then Enter up: the empty line is committed (the prompt is printed) and only that shift's flag is set |
| `Properties.EmptyPollsChangeNothing` | shell/src/main.rs:23-34 | polls that find the stream empty leave decoder, line and output unchanged |

## Left out

- `USKeymap::get_unicode` lives in an external crate that is not part of this model. It is the parameter `KeyTable`, a total function of the key and the four flags.
- Only the variants the code names are modelled. The other variants of the input crate's `Modifier`, `Control` and `VirtualKeyCode` enums are `OtherModifier`, `OtherControl` and `Other`, each with an opaque code.
- The model does not cover the `unsafe` reinterpretation of the message bytes as a `KeyboardEvent` (`shell/src/main.rs:24`). Events arrive already typed.
- The model does not cover the syscalls `stream_pop`, `yield_now` and `exit`, or the panic handler (`shell/src/main.rs:23, 36, 40-44`). A poll is an `Option` input, and the yield does nothing to the modelled state.
- `print!` is recorded as the strings it is given: a one-character string for an echo, and the line followed by `"\n> "` for a commit. No formatting or device output is modelled.
- The endless `loop` is modelled as one iteration plus runs over finite prefixes of the event stream.
- `kernel/src/tsk.rs` is a fixed vector-graphics demo. It uses floating-point geometry, an external drawing library, a global lock and volatile framebuffer writes, and it has no decision logic.
