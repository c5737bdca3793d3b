/** The command history as a value: bounded, without consecutive repeats, browsed with UP and DOWN. */
module HistorySpec {
  import opened Wrappers

  const MAX_LENGTH: nat := 64

  /** The history after one more command. */
  function Appended(h: seq<string>, c: string): (r: seq<string>)
    ensures |h| <= MAX_LENGTH ==> |r| <= MAX_LENGTH
  {
    if h != [] && h[|h| - 1] == c then h
    else if |h| == MAX_LENGTH then h[1..] + [c]
    else h + [c]
  }

  function After(lines: seq<string>): seq<string> {
    if lines == [] then [] else Appended(After(lines[..|lines| - 1]), lines[|lines| - 1])
  }

  /** Consecutive repeats collapsed into one. */
  function Collapse(lines: seq<string>): seq<string> {
    if lines == [] then []
    else
      var n := |lines| - 1;
      var before := Collapse(lines[..n]);
      if before != [] && before[|before| - 1] == lines[n] then before else before + [lines[n]]
  }

  function Last(s: seq<string>, n: nat): seq<string> {
    if |s| <= n then s else s[|s| - n..]
  }

  /** The history is the last 64 of the commands executed, consecutive repeats collapsed. */
  lemma {:induction false} HistoryIsLast64(lines: seq<string>)
    ensures After(lines) == Last(Collapse(lines), 64)
  {
    if lines != [] {
      var n := |lines| - 1;
      HistoryIsLast64(lines[..n]);
      var before := Collapse(lines[..n]);
      var h := Last(before, MAX_LENGTH);
      assert before != [] ==> h[|h| - 1] == before[|before| - 1];
      if !(before != [] && before[|before| - 1] == lines[n]) && |before| >= MAX_LENGTH {
        assert h[1..] + [lines[n]] == Last(before + [lines[n]], MAX_LENGTH);
      }
    }
  }

  // ---------------------------------------------------------------- browsing

  /**
   `pos` is the entry shown, `None` outside the history; `saved` is the line that was being edited
   when UP was first pressed.
   */
  datatype Browser = Browser(texts: seq<string>, pos: Option<nat>, saved: string, savedValid: bool)

  predicate InRange(b: Browser) {
    b.pos.Some? ==> b.pos.value < |b.texts|
  }

  datatype Answer = Answer(b: Browser, text: Option<string>)

  function Previous(b: Browser, line: string): (a: Answer)
    requires InRange(b)
    ensures InRange(a.b)
  {
    if b.texts == [] || b.pos == Some(0) then Answer(b, None)
    else if b.pos.None? then
      var last := |b.texts| - 1;
      Answer(b.(pos := Some(last), saved := line, savedValid := true), Some(b.texts[last]))
    else
      Answer(b.(pos := Some(b.pos.value - 1)), Some(b.texts[b.pos.value - 1]))
  }

  function Next(b: Browser): (a: Answer)
    requires InRange(b)
    ensures InRange(a.b)
  {
    if b.pos.Some? && b.pos.value + 1 < |b.texts| then
      Answer(b.(pos := Some(b.pos.value + 1)), Some(b.texts[b.pos.value + 1]))
    else if b.savedValid then
      Answer(b.(pos := None, savedValid := false), Some(b.saved))
    else
      Answer(b.(pos := None), None)
  }

  /** The line on the screen and the browser behind it. */
  datatype Screen = Screen(line: string, b: Browser)

  function Show(line: string, a: Answer): Screen {
    Screen(if a.text.Some? then a.text.value else line, a.b)
  }

  function Ups(s: Screen, k: nat): (r: Screen)
    requires InRange(s.b)
    ensures InRange(r.b)
  {
    if k == 0 then s
    else
      var p := Ups(s, k - 1);
      Show(p.line, Previous(p.b, p.line))
  }

  function Downs(s: Screen, k: nat): (r: Screen)
    requires InRange(s.b)
    ensures InRange(r.b)
  {
    if k == 0 then s
    else
      var p := Downs(s, k - 1);
      Show(p.line, Next(p.b))
  }

  lemma {:induction false} AfterUps(s: Screen, k: nat)
    requires InRange(s.b) && s.b.pos.None? && 1 <= k <= |s.b.texts|
    ensures var i := |s.b.texts| - k;
      Ups(s, k) == Screen(s.b.texts[i], s.b.(pos := Some(i), saved := s.line, savedValid := true))
  {
    if k > 1 {
      AfterUps(s, k - 1);
    } else {
      assert Ups(s, 0) == s;
    }
  }

  /** Any number of UPs shows the entry so many places from the end, at most the oldest one. */
  lemma {:induction false} UpsShowOldest(s: Screen, k: nat)
    requires InRange(s.b) && s.b.pos.None? && s.b.texts != [] && 1 <= k
    ensures var i := if k <= |s.b.texts| then |s.b.texts| - k else 0;
      Ups(s, k).line == s.b.texts[i] && Ups(s, k).b == s.b.(pos := Some(i), saved := s.line, savedValid := true)
  {
    if k <= |s.b.texts| {
      AfterUps(s, k);
    } else {
      UpsShowOldest(s, k - 1);
    }
  }

  /** UP does nothing without a history. */
  lemma {:induction false} UpsWithoutHistory(s: Screen, k: nat)
    requires s.b.texts == [] && s.b.pos.None?
    ensures Ups(s, k) == s
  {
    if k > 0 {
      UpsWithoutHistory(s, k - 1);
    }
  }

  lemma {:induction false} AfterDowns(s: Screen, k: nat)
    requires InRange(s.b) && s.b.pos.Some? && s.b.savedValid && k <= |s.b.texts| - s.b.pos.value
    ensures var i := s.b.pos.value + k;
      if k == 0 then Downs(s, k) == s
      else if i < |s.b.texts| then Downs(s, k) == Screen(s.b.texts[i], s.b.(pos := Some(i)))
      else Downs(s, k) == Screen(s.b.saved, s.b.(pos := None, savedValid := false))
  {
    if k > 0 {
      AfterDowns(s, k - 1);
    }
  }

  /** As many DOWNs as UPs bring back the line that was being edited, and leave the history. */
  lemma DownsUndoUps(s: Screen, k: nat)
    requires InRange(s.b) && s.b.pos.None? && k <= |s.b.texts|
    ensures Downs(Ups(s, k), k).line == s.line
    ensures Downs(Ups(s, k), k).b.pos.None? && Downs(Ups(s, k), k).b.texts == s.b.texts
  {
    if k > 0 {
      AfterUps(s, k);
      AfterDowns(Ups(s, k), k);
    }
  }

  // ---------------------------------------------------------------- keys

  datatype Key = Edit(line: string) | Up | Down | Enter

  /** Enter empties the line and leaves the history, but keeps the saved line. */
  function Press(s: Screen, k: Key): (r: Screen)
    requires InRange(s.b)
    ensures InRange(r.b)
  {
    match k
    case Edit(line) => s.(line := line)
    case Up => Show(s.line, Previous(s.b, s.line))
    case Down => Show(s.line, Next(s.b))
    case Enter =>
      var texts := if s.line == "" then s.b.texts else Appended(s.b.texts, s.line);
      Screen("", s.b.(texts := texts, pos := None))
  }

  const FRESH: Screen := Screen("", Browser([], None, "", false))

  function Pressed(keys: seq<Key>): (s: Screen)
    ensures InRange(s.b)
  {
    if keys == [] then FRESH else Press(Pressed(keys[..|keys| - 1]), keys[|keys| - 1])
  }

  /** The history was last left with Enter, and DOWN was not pressed since. */
  predicate LeftByEnter(keys: seq<Key>) {
    keys != []
    && var n := |keys| - 1;
      if Pressed(keys[..n]).b.pos.Some? then keys[n].Enter?
      else !keys[n].Down? && LeftByEnter(keys[..n])
  }

  /** The line that was being edited when the history was last entered. */
  function EditedBefore(keys: seq<Key>): string {
    if keys == [] then ""
    else
      var before := Pressed(keys[..|keys| - 1]);
      if before.b.pos.None? && Pressed(keys).b.pos.Some? then before.line
      else EditedBefore(keys[..|keys| - 1])
  }

  /** Inside the history a line is saved; outside it is exactly when Enter has led there. */
  lemma {:induction false} SavedExactly(keys: seq<Key>)
    ensures var b := Pressed(keys).b;
      && (b.savedValid <==> b.pos.Some? || LeftByEnter(keys))
      && (b.savedValid ==> b.saved == EditedBefore(keys))
  {
    if keys != [] {
      SavedExactly(keys[..|keys| - 1]);
    }
  }

  /**
   Outside the history DOWN leaves the line alone exactly when the history was not last left with Enter,
   or DOWN was pressed since. Otherwise it shows the line that was being edited before the history was
   entered, although that line was given up.
   */
  lemma DownOutsideExactly(keys: seq<Key>)
    requires Pressed(keys).b.pos.None?
    ensures Next(Pressed(keys).b).text == if LeftByEnter(keys) then Some(EditedBefore(keys)) else None
  {
    SavedExactly(keys);
  }

  lemma PressedOneMore(keys: seq<Key>, k: Key)
    ensures Pressed(keys + [k]) == Press(Pressed(keys), k)
  {
    assert (keys + [k])[..|keys|] == keys;
  }

  /** Typing a line, UP, Enter, DOWN: the line is back, whenever the history is not empty. */
  lemma DownAfterEnterRestores(keys: seq<Key>, line: string)
    requires Pressed(keys).b.pos.None? && Pressed(keys).b.texts != []
    ensures Pressed(keys + [Edit(line)] + [Up] + [Enter] + [Down]).line == line
  {
    PressedOneMore(keys, Edit(line));
    PressedOneMore(keys + [Edit(line)], Up);
    PressedOneMore(keys + [Edit(line)] + [Up], Enter);
    PressedOneMore(keys + [Edit(line)] + [Up] + [Enter], Down);
  }
}
