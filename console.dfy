/**
 * The shell's console loop: each iteration polls the event stream once,
 * feeds an event to the decoder, and appends-and-echoes a decoded character
 * or, on a return, prints the line followed by a prompt and starts a new
 * line. Printing is recorded as the sequence of strings handed to `print!`.
 */
module Console {
  import opened Keyboard
  import opened Decoding

  /** What the loop carries from one iteration to the next (the decoder's
      flags and the line being typed) plus everything printed so far. */
  datatype Session = Session(flags: Flags, line: string, printed: seq<string>)

  /** The state right after start-up: a new decoder and an empty line. */
  const Initial := Session(Cleared, [], [])

  /** The prompt printed after a committed line. */
  const Prompt: string := "\n> "

  /** A poll that commits the line when the decoder's flags are `f` before it. */
  predicate Commits(f: Flags, ev: Option<KeyboardEvent>) {
    ev.Some? && Ret(f, ev.value)
  }

  /** One iteration of the loop; `None` is an empty poll of the event stream. */
  function Step(s: Session, ev: Option<KeyboardEvent>, table: KeyTable): (r: Session)
    ensures r.flags == if ev.Some? then Decode(s.flags, ev.value, table).flags else s.flags
    ensures ev.Some? && IsKeyPress(ev.value) ==>
              var c := table(ev.value.key, s.flags.lshift, s.flags.rshift, s.flags.capsLock, s.flags.numLock);
              r.line == s.line + [c] && r.printed == s.printed + [[c]]
    ensures Commits(s.flags, ev) ==>
              r.flags == s.flags && r.line == [] && r.printed == s.printed + [s.line + Prompt]
    ensures !(ev.Some? && IsKeyPress(ev.value)) && !Commits(s.flags, ev) ==>
              r.line == s.line && r.printed == s.printed
  {
    match ev
    case None => s
    case Some(event) =>
      var d := Decode(s.flags, event, table);
      if d.ch.Some? then
        Session(d.flags, s.line + [d.ch.value], s.printed + [[d.ch.value]])
      // `ret` is asked of the decoder after `parse_char` has updated it
      else if Ret(d.flags, event) then
        Session(d.flags, [], s.printed + [s.line + Prompt])
      else
        Session(d.flags, s.line, s.printed)
  }

  /** The loop run over a finite sequence of polls, one iteration per poll. */
  function Run(s: Session, evs: seq<Option<KeyboardEvent>>, table: KeyTable): (r: Session)
    ensures |s.printed| <= |r.printed| <= |s.printed| + |evs|
    ensures r.printed[..|s.printed|] == s.printed
    decreases |evs|
  {
    if evs == [] then s
    else Step(Run(s, evs[..|evs| - 1], table), evs[|evs| - 1], table)
  }

  /** One iteration of the loop on the decoder object and the line, which the
      iteration hands back; `printed` is what the iteration prints. */
  method RunIteration(decoder: KBInputDecoder, line: string, ev: Option<KeyboardEvent>, table: KeyTable)
    returns (line': string, printed: seq<string>)
    modifies decoder
    ensures Session(decoder.State(), line', printed) == Step(Session(old(decoder.State()), line, []), ev, table)
  {
    line', printed := line, [];
    if ev.Some? {
      var event := ev.value;
      var ch := decoder.ParseChar(event, table);
      if ch.Some? {
        line' := line + [ch.value];
        printed := [[ch.value]];
      } else if Ret(decoder.State(), event) {
        printed := [line + Prompt];
        line' := [];
      }
    }
  }

  /** The shell's main: a new decoder and an empty line, then one iteration per
      poll of `events` (a finite prefix of the endless loop). */
  method Shell(events: seq<Option<KeyboardEvent>>, table: KeyTable)
    returns (decoder: KBInputDecoder, line: string, printed: seq<string>)
    ensures Session(decoder.State(), line, printed) == Run(Initial, events, table)
  {
    line := [];
    decoder := new KBInputDecoder();
    printed := [];
    var i := 0;
    while i < |events|
      invariant 0 <= i <= |events|
      invariant Session(decoder.State(), line, printed) == Run(Initial, events[..i], table)
    {
      assert events[..i + 1][..i] == events[..i];
      var out;
      line, out := RunIteration(decoder, line, events[i], table);
      printed := printed + out;
      i := i + 1;
    }
    assert events[..i] == events;
  }
}
