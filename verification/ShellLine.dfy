/** The line being edited: a NUL-terminated buffer of fixed size with a length and a cursor. */
module ShellLine {
  import opened CStrings

  const COMMAND_MAX: nat := 256

  /** Text and cursor after typing a character at the cursor. */
  function Typed(t: string, cursor: nat, ch: char): string
    requires cursor <= |t|
  {
    t[..cursor] + [ch] + t[cursor..]
  }

  function Erased(t: string, cursor: nat): string
    requires cursor < |t|
  {
    t[..cursor] + t[cursor + 1..]
  }

  /** Erasing takes back what was typed, in any text and at any place, and typing what was erased. */
  lemma ErasedUndoesTyped(t: string, cursor: nat, ch: char)
    requires cursor <= |t|
    ensures Erased(Typed(t, cursor, ch), cursor) == t
    ensures cursor < |t| ==> Typed(Erased(t, cursor), cursor, t[cursor]) == t
  {
  }

  /** As much of a string fits as keeps the line within 255 characters. */
  lemma FittingExactly(s: string, length: nat)
    requires length < 256
    ensures length + Fitting(s, length) <= 255
    ensures Fitting(s, length) < |s| ==> length + Fitting(s, length) == 255
  {
  }

  lemma TypedAfter(left: string, s: string, right: string, ch: char)
    ensures Typed(left + s + right, |left + s|, ch) == left + (s + [ch]) + right
  {
  }

  /** Moving the rest of the line up by one and storing a character in the gap types it. */
  lemma MovedIsTyped(was: seq<char>, now: seq<char>, length: nat, cursor: nat, ch: char)
    requires cursor <= length && length + 1 < |was| == |now|
    requires now[..cursor] == was[..cursor] && now[cursor] == ch
    requires forall i :: cursor <= i <= length ==> now[i + 1] == was[i]
    ensures now[..length + 1] == Typed(was[..length], cursor, ch) && now[length + 1] == was[length]
  {
    assert now[cursor + 1..length + 1] == was[cursor..length];
  }

  /** How many characters of `s` fit into a line of the given length. */
  function Fitting(s: string, length: nat): (n: nat)
    requires length < COMMAND_MAX
    ensures n <= |s|
  {
    if length + |s| < COMMAND_MAX then |s| else COMMAND_MAX - 1 - length
  }

  class Line {
    const buf: array<char>
    var length: nat
    var cursor: nat

    ghost predicate Valid()
      reads this, buf
    {
      && buf.Length == COMMAND_MAX
      && cursor <= length < COMMAND_MAX
      && buf[length] == NUL
    }

    ghost function Text(): string
      requires Valid()
      reads this, buf
    {
      buf[..length]
    }

    constructor ()
      ensures Valid() && fresh(buf) && Text() == "" && cursor == 0
    {
      buf := new char[COMMAND_MAX](_ => NUL);
      length, cursor := 0, 0;
    }

    /** Types one character unless the buffer is full. */
    method Insert(ch: char) returns (ok: bool)
      requires Valid()
      modifies this, buf
      ensures Valid() && (ok <==> old(length) < COMMAND_MAX - 1)
      ensures ok ==> Text() == Typed(old(Text()), old(cursor), ch) && cursor == old(cursor) + 1
      ensures !ok ==> Text() == old(Text()) && cursor == old(cursor)
    {
      if length == COMMAND_MAX - 1 {
        return false;
      }
      ghost var was := buf[..];
      forall i | cursor <= i <= length {
        buf[i + 1] := buf[i];
      }
      buf[cursor] := ch;
      cursor := cursor + 1;
      length := length + 1;
      assert buf[..length] == buf[..][..length];
      MovedIsTyped(was, buf[..], length - 1, cursor - 1, ch);
      ok := true;
    }

    /** Types a string at the cursor, as much of it as fits. */
    method InsertString(s: string)
      requires Valid() && NulFree(s)
      modifies this, buf
      ensures Valid()
      ensures var n := Fitting(s, old(length));
        && Text() == old(Text())[..old(cursor)] + s[..n] + old(Text())[old(cursor)..]
        && cursor == old(cursor) + n
    {
      ghost var left, right := Text()[..cursor], Text()[cursor..];
      var i := 0;
      assert Text() == left + s[..0] + right;
      while i < |s|
        invariant 0 <= i <= |s| && Valid()
        invariant i <= COMMAND_MAX - 1 - old(length)
        invariant cursor == old(cursor) + i && length == old(length) + i
        invariant Text() == left + s[..i] + right
      {
        var ok := Insert(s[i]);
        if !ok {
          break;
        }
        TypedAfter(left, s[..i], right, s[i]);
        assert s[..i] + [s[i]] == s[..i + 1];
        i := i + 1;
      }
    }

    /** Deletes the character at the cursor, if there is one. */
    method Delete()
      requires Valid()
      modifies this, buf
      ensures Valid() && cursor == old(cursor)
      ensures Text() == if old(cursor) == old(length) then old(Text())
                        else Erased(old(Text()), old(cursor))
    {
      if cursor == length {
        return;
      }
      ghost var t := Text();
      forall i | cursor <= i < length {
        buf[i] := buf[i + 1];
      }
      length := length - 1;
      assert buf[..length] == Erased(t, cursor);
    }

    /** Moves the cursor, unless that would leave the line. */
    method Seek(pos: int) returns (ok: bool)
      requires Valid()
      modifies this`cursor
      ensures Valid() && (ok <==> if pos < 0 then 0 <= old(cursor) + pos else old(cursor) + pos <= length)
      ensures cursor == if ok then old(cursor) + pos else old(cursor)
    {
      if pos < 0 {
        if cursor + pos < 0 {
          return false;
        }
      } else {
        if cursor + pos > length {
          return false;
        }
      }
      cursor := cursor + pos;
      ok := true;
    }

    /** Deletes the character before the cursor, if there is one. */
    method Backspace()
      requires Valid()
      modifies this, buf
      ensures Valid()
      ensures old(cursor) == 0 ==> Text() == old(Text()) && cursor == 0
      ensures 0 < old(cursor) ==>
        Text() == Erased(old(Text()), old(cursor) - 1) && cursor == old(cursor) - 1
    {
      var ok := Seek(-1);
      if ok {
        Delete();
      }
    }
  }
}
