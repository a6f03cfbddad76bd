/**
 * Properties of the decoder and the console loop over whole event sequences.
 */
module Properties {
  import opened Keyboard
  import opened Decoding
  import opened Console

  /** Running two stretches of polls one after the other is running their concatenation. */
  lemma {:induction false} RunAppend(s: Session, a: seq<Option<KeyboardEvent>>, b: seq<Option<KeyboardEvent>>, table: KeyTable)
    ensures Run(s, a + b, table) == Run(Run(s, a, table), b, table)
    decreases |b|
  {
    if b == [] {
      assert a + b == a;
    } else {
      var b' := b[..|b| - 1];
      assert (a + b)[..|a + b| - 1] == a + b';
      RunAppend(s, a, b', table);
    }
  }

  /** The last poll of a stretch is one more iteration after the rest. */
  lemma RunSnoc(s: Session, evs: seq<Option<KeyboardEvent>>, ev: Option<KeyboardEvent>, table: KeyTable)
    ensures Run(s, evs + [ev], table) == Step(Run(s, evs, table), ev, table)
  {
  }

  /** `n` key-downs of the modifier `m` in a row. */
  function Presses(m: ModifierKey, n: nat): seq<Option<KeyboardEvent>>
    decreases n
  {
    if n == 0 then [] else Presses(m, n - 1) + [Some(Down(Modifier(m)))]
  }

  /** Each key-down of a lock key flips its flag: after `n` of them the flag has
      flipped exactly when `n` is odd, and nothing else has changed. */
  lemma {:induction false} LockToggleParity(s: Session, m: ModifierKey, n: nat, table: KeyTable)
    requires m == CapsLock || m == NumLock
    ensures var r := Run(s, Presses(m, n), table);
      r.line == s.line && r.printed == s.printed &&
      r.flags.lshift == s.flags.lshift && r.flags.rshift == s.flags.rshift &&
      r.flags.capsLock == (if m == CapsLock then s.flags.capsLock != (n % 2 == 1) else s.flags.capsLock) &&
      r.flags.numLock == (if m == NumLock then s.flags.numLock != (n % 2 == 1) else s.flags.numLock)
    decreases n
  {
    if n > 0 {
      var ev := Some(Down(Modifier(m)));
      LockToggleParity(s, m, n - 1, table);
      RunSnoc(s, Presses(m, n - 1), ev, table);
      var q := Run(s, Presses(m, n - 1), table);
      var d := Decode(q.flags, ev.value, table);
      assert d.flags.lshift == q.flags.lshift && d.flags.rshift == q.flags.rshift;
      assert d.flags.capsLock == (q.flags.capsLock != (m == CapsLock));
      assert d.flags.numLock == (q.flags.numLock != (m == NumLock));
      assert (n % 2 == 1) == !((n - 1) % 2 == 1);
    }
  }

  /** Two consecutive toggles of a lock key restore the session exactly. */
  lemma DoubleToggleRestores(s: Session, m: ModifierKey, table: KeyTable)
    requires m == CapsLock || m == NumLock
    ensures Run(s, Presses(m, 2), table) == s
  {
    LockToggleParity(s, m, 2, table);
  }

  /** From a fresh decoder, an odd number of toggles leaves the lock on. */
  lemma OddTogglesFromClearedSetLock(m: ModifierKey, k: nat, table: KeyTable)
    requires m == CapsLock || m == NumLock
    ensures var f := Run(Initial, Presses(m, 2 * k + 1), table).flags;
      (m == CapsLock ==> f.capsLock) && (m == NumLock ==> f.numLock)
  {
    LockToggleParity(Initial, m, 2 * k + 1, table);
  }

  /** Polls that bring only key-ups (or nothing) never type a character: the line
      stays as it was or is committed and emptied. The only state they change is
      a held shift flag, cleared by that shift's release; any other release
      leaves the decoder exactly as it was. */
  lemma {:induction false} ReleasesNeverType(s: Session, evs: seq<Option<KeyboardEvent>>, table: KeyTable)
    requires forall i :: 0 <= i < |evs| ==> evs[i].None? || evs[i].value.Up?
    ensures var r := Run(s, evs, table);
      r.flags == Flags(s.flags.lshift && Some(Up(Modifier(LeftShift))) !in evs,
                       s.flags.rshift && Some(Up(Modifier(RightShift))) !in evs,
                       s.flags.capsLock, s.flags.numLock) &&
      (r.line == s.line || r.line == [])
    decreases |evs|
  {
    if evs != [] {
      var p := evs[..|evs| - 1];
      assert evs == p + [evs[|evs| - 1]];
      ReleasesNeverType(s, p, table);
    }
  }

  /** A poll that involves one of the four tracked modifier keys. */
  predicate TouchesTrackedModifier(ev: Option<KeyboardEvent>) {
    ev.Some? && ev.value.key.Modifier? && !ev.value.key.modifier.OtherModifier?
  }

  /** The characters that the key presses among `evs` map to under fixed flags `f`. */
  function Typed(evs: seq<Option<KeyboardEvent>>, f: Flags, table: KeyTable): string
    decreases |evs|
  {
    if evs == [] then []
    else
      var ev := evs[|evs| - 1];
      Typed(evs[..|evs| - 1], f, table) +
      (if ev.Some? && IsKeyPress(ev.value) then [table(ev.value.key, f.lshift, f.rshift, f.capsLock, f.numLock)] else [])
  }

  /** Without events on shift or lock keys and without a return, the flags never
      change and every key press appends the table's character for the flags
      the session started with. */
  lemma {:induction false} UnmodifiedTyping(s: Session, evs: seq<Option<KeyboardEvent>>, table: KeyTable)
    requires forall i :: 0 <= i < |evs| ==> !TouchesTrackedModifier(evs[i]) && evs[i] != Some(Up(Control(Enter)))
    ensures Run(s, evs, table).flags == s.flags
    ensures Run(s, evs, table).line == s.line + Typed(evs, s.flags, table)
    decreases |evs|
  {
    if evs != [] {
      UnmodifiedTyping(s, evs[..|evs| - 1], table);
    }
  }

  /** Without events on shift or lock keys the flags never change, whatever
      else happens (returns and other key-ups included). */
  lemma {:induction false} FlagsFixedWithoutModifiers(s: Session, evs: seq<Option<KeyboardEvent>>, table: KeyTable)
    requires forall i :: 0 <= i < |evs| ==> !TouchesTrackedModifier(evs[i])
    ensures Run(s, evs, table).flags == s.flags
    decreases |evs|
  {
    if evs != [] {
      FlagsFixedWithoutModifiers(s, evs[..|evs| - 1], table);
    }
  }

  /** From start-up, without events on shift or lock keys (returns allowed), the
      flags stay cleared after every poll, and every key press appends to the line
      the table's character with every modifier flag false. */
  lemma UnmodifiedTypingFromStart(evs: seq<Option<KeyboardEvent>>, table: KeyTable)
    requires forall i :: 0 <= i < |evs| ==> !TouchesTrackedModifier(evs[i])
    ensures forall i :: 0 <= i <= |evs| ==> Run(Initial, evs[..i], table).flags == Cleared
    ensures forall i :: 0 <= i < |evs| && evs[i].Some? && IsKeyPress(evs[i].value) ==>
              Run(Initial, evs[..i + 1], table).line ==
              Run(Initial, evs[..i], table).line + [table(evs[i].value.key, false, false, false, false)]
  {
    forall i | 0 <= i <= |evs|
      ensures Run(Initial, evs[..i], table).flags == Cleared
    {
      FlagsFixedWithoutModifiers(Initial, evs[..i], table);
    }
    forall i | 0 <= i < |evs| && evs[i].Some? && IsKeyPress(evs[i].value)
      ensures Run(Initial, evs[..i + 1], table).line ==
              Run(Initial, evs[..i], table).line + [table(evs[i].value.key, false, false, false, false)]
    {
      FlagsFixedWithoutModifiers(Initial, evs[..i], table);
      assert evs[..i + 1][..i] == evs[..i];
    }
  }

  /** A single key press from start-up types the unmodified character. */
  lemma SingleKeyPress(k: VirtualKeyCode, table: KeyTable)
    requires !k.Modifier?
    ensures Run(Initial, [Some(Down(k))], table) ==
            Session(Cleared, [table(k, false, false, false, false)], [[table(k, false, false, false, false)]])
  {
  }

  /** Left shift down, a key, left shift up, return released: the key is typed
      with left shift held, the return then commits the line (both shifts are up
      again), and the session ends with an empty line. */
  lemma ShiftedKeyThenReturn(k: VirtualKeyCode, table: KeyTable)
    requires !k.Modifier?
    ensures var c := table(k, true, false, false, false);
      Run(Initial, [Some(Down(Modifier(LeftShift))), Some(Down(k)), Some(Up(Modifier(LeftShift))), Some(Up(Control(Enter)))], table) ==
      Session(Cleared, [], [[c], [c] + Prompt])
  {
    var e1, e2, e3, e4 := Some(Down(Modifier(LeftShift))), Some(Down(k)), Some(Up(Modifier(LeftShift))), Some(Up(Control(Enter)));
    assert [e1] == [] + [e1] && [e1, e2] == [e1] + [e2];
    assert [e1, e2, e3] == [e1, e2] + [e3] && [e1, e2, e3, e4] == [e1, e2, e3] + [e4];
    RunSnoc(Initial, [], e1, table);
    RunSnoc(Initial, [e1], e2, table);
    RunSnoc(Initial, [e1, e2], e3, table);
    RunSnoc(Initial, [e1, e2, e3], e4, table);
    var c := table(k, true, false, false, false);
    assert Run(Initial, [e1, e2, e3], table) == Session(Cleared, [c], [[c]]);
    assert [[c]] + [[c] + Prompt] == [[c], [c] + Prompt];
  }

  /** In any session, releasing return while both shifts are held changes nothing:
      no character, no commit, no output, the same flags. */
  lemma ReturnUnderBothShiftsIsInert(s: Session, table: KeyTable)
    requires s.flags.lshift && s.flags.rshift
    ensures Step(s, Some(Up(Control(Enter))), table) == s
  {
  }

  /** From start-up, left shift down, right shift down, then return released:
      nothing is committed and nothing is typed. */
  lemma BothShiftsSuppressReturn(table: KeyTable)
    ensures Run(Initial, [Some(Down(Modifier(LeftShift))), Some(Down(Modifier(RightShift))), Some(Up(Control(Enter)))], table) ==
            Session(Flags(true, true, false, false), [], [])
  {
    var e1, e2, e3 := Some(Down(Modifier(LeftShift))), Some(Down(Modifier(RightShift))), Some(Up(Control(Enter)));
    assert [e1] == [] + [e1] && [e1, e2] == [e1] + [e2] && [e1, e2, e3] == [e1, e2] + [e3];
    RunSnoc(Initial, [], e1, table);
    RunSnoc(Initial, [e1], e2, table);
    RunSnoc(Initial, [e1, e2], e3, table);
  }

  /** Holding one shift alone does not suppress the return. */
  lemma OneShiftDoesNotSuppressReturn(m: ModifierKey, table: KeyTable)
    requires m == LeftShift || m == RightShift
    ensures Run(Initial, [Some(Down(Modifier(m))), Some(Up(Control(Enter)))], table) ==
            Session(Flags(m == LeftShift, m == RightShift, false, false), [], [Prompt])
  {
    var e1, e2 := Some(Down(Modifier(m))), Some(Up(Control(Enter)));
    var f := Flags(m == LeftShift, m == RightShift, false, false);
    var noLine: string := [];
    assert [e1] == [] + [e1] && [e1, e2] == [e1] + [e2];
    RunSnoc(Initial, [], e1, table);
    RunSnoc(Initial, [e1], e2, table);
    assert Decode(Cleared, e1.value, table).flags == f;
    assert Step(Initial, e1, table) == Session(f, noLine, []);
    assert Commits(f, e2);
    assert noLine + Prompt == Prompt;
    assert Step(Session(f, noLine, []), e2, table) == Session(f, [], [Prompt]);
  }

  /** `n` polls of an empty event stream. */
  function EmptyPolls(n: nat): seq<Option<KeyboardEvent>> {
    seq(n, _ => None)
  }

  /** Empty polls leave the whole session untouched. */
  lemma {:induction false} EmptyPollsChangeNothing(s: Session, n: nat, table: KeyTable)
    ensures Run(s, EmptyPolls(n), table) == s
    decreases n
  {
    if n > 0 {
      assert EmptyPolls(n)[..n - 1] == EmptyPolls(n - 1);
      EmptyPollsChangeNothing(s, n - 1, table);
    }
  }
}
