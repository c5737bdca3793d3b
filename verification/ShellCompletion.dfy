/** Tab completion of command names over the sorted command table. */
module ShellCompletion {
  import opened CStrings
  import opened ShellLine

  // ---------------------------------------------------------------- C strings and their order

  /** The character at `i`, the terminator at the end. */
  function CharAt(s: string, i: nat): char {
    if i < |s| then s[i] else NUL
  }

  function Prefix(s: string, n: nat): string {
    if n < |s| then s[..n] else s
  }

  /** strncmp finds no difference. */
  predicate StrnEqual(a: string, b: string, n: nat) {
    Prefix(a, n) == Prefix(b, n)
  }

  /** strcmp says less. */
  predicate Less(a: string, b: string) {
    b != "" && (a == "" || a[0] < b[0] || (a[0] == b[0] && Less(a[1..], b[1..])))
  }

  /** strcmp says not greater. */
  predicate UpTo(a: string, b: string) {
    a == b || Less(a, b)
  }

  /** The order is that of the first character in which two names differ; a prefix comes first. */
  lemma {:induction false} LessExactly(p: string, a: string, b: string)
    requires a == "" || b == "" || a[0] != b[0]
    ensures Less(p + a, p + b) <==> b != "" && (a == "" || a[0] < b[0])
  {
    if p == "" {
      assert p + a == a && p + b == b;
    } else {
      assert (p + a)[1..] == p[1..] + a && (p + b)[1..] == p[1..] + b;
      LessExactly(p[1..], a, b);
    }
  }

  /** A table of names in strcmp order; a name may be registered more than once. */
  predicate Table(cmds: seq<string>) {
    && (forall i {:trigger NulFree(cmds[i])} :: 0 <= i < |cmds| ==> NulFree(cmds[i]))
    && (forall i, j {:trigger UpTo(cmds[i], cmds[j])} :: 0 <= i < j < |cmds| ==> UpTo(cmds[i], cmds[j]))
  }

  /** Between two names with a common prefix there are only names with that prefix. */
  lemma {:induction false} PrefixBetween(t: string, a: string, b: string, c: string)
    requires t <= a && t <= c && UpTo(a, b) && UpTo(b, c)
    ensures t <= b
  {
    if t != "" {
      assert a[0] == t[0] == c[0] == b[0];
      PrefixBetween(t[1..], a[1..], b[1..], c[1..]);
      assert t == [t[0]] + t[1..] && b == [b[0]] + b[1..];
    }
  }

  // ---------------------------------------------------------------- what the code computes

  datatype Edit = Edit(text: string, cursor: nat)

  function TypeInto(e: Edit, ch: char): Edit
    requires e.cursor <= |e.text|
  {
    if |e.text| == COMMAND_MAX - 1 then e else Edit(Typed(e.text, e.cursor, ch), e.cursor + 1)
  }

  /** Whether, from `i` on, a command before the first non-matching one continues differently. */
  predicate Differs(cmds: seq<string>, i: nat, text: string, size: nat, next: char)
    decreases |cmds| - i
  {
    && i < |cmds| && StrnEqual(cmds[i], text, size)
    && (CharAt(cmds[i], size) != next || Differs(cmds, i + 1, text, size, next))
  }

  function Complete(cmds: seq<string>, first: nat, e: Edit, size: nat): Edit
    requires first < |cmds| && size <= |cmds[first]| && e.cursor <= |e.text|
    decreases |cmds[first]| - size
  {
    var next := CharAt(cmds[first], size);
    if Differs(cmds, first, e.text, size, next) then e
    else if size == |cmds[first]| then TypeInto(e, ' ')
    else Complete(cmds, first, TypeInto(e, next), size + 1)
  }

  predicate FirstMatch(cmds: seq<string>, text: string, first: nat) {
    && first < |cmds| && text <= cmds[first]
    && forall i :: 0 <= i < first ==> !(text <= cmds[i])
  }

  lemma StrnEqualIsPrefix(name: string, text: string)
    ensures StrnEqual(name, text, |text|) <==> text <= name
  {
    assert Prefix(text, |text|) == text;
    assert |text| < |name| ==> (name[..|text|] == text <==> text <= name);
  }

  method FindFirst(cmds: seq<string>, line: Line) returns (first: int)
    requires line.Valid() && NulFree(line.Text())
    ensures -1 <= first < |cmds|
    ensures first == -1 ==> forall i :: 0 <= i < |cmds| ==> !(line.Text() <= cmds[i])
    ensures first != -1 ==> FirstMatch(cmds, line.Text(), first)
  {
    var i := 0;
    while i < |cmds|
      invariant 0 <= i <= |cmds|
      invariant forall k :: 0 <= k < i ==> !(line.Text() <= cmds[k])
    {
      StrnEqualIsPrefix(cmds[i], line.Text());
      if StrnEqual(cmds[i], line.buf[..line.length], line.length) {
        return i;
      }
      i := i + 1;
    }
    first := -1;
  }

  method FindMismatch(cmds: seq<string>, first: nat, line: Line, size: nat, next: char)
    returns (mismatch: bool)
    requires line.Valid() && first <= |cmds|
    ensures mismatch <==> Differs(cmds, first, line.Text(), size, next)
  {
    var i := first;
    mismatch := false;
    while i < |cmds| && StrnEqual(cmds[i], line.buf[..line.length], size)
      invariant first <= i <= |cmds|
      invariant Differs(cmds, first, line.Text(), size, next) <==> Differs(cmds, i, line.Text(), size, next)
    {
      if CharAt(cmds[i], size) != next {
        return true;
      }
      i := i + 1;
    }
  }

  ghost function EditOf(line: Line): Edit
    requires line.Valid()
    reads line, line.buf
  {
    Edit(line.Text(), line.cursor)
  }

  method Type(line: Line, ch: char)
    requires line.Valid()
    modifies line, line.buf
    ensures line.Valid() && EditOf(line) == TypeInto(old(EditOf(line)), ch)
  {
    var ok := line.Insert(ch);
  }

  lemma CompleteStep(cmds: seq<string>, first: nat, e: Edit, size: nat)
    requires first < |cmds| && size <= |cmds[first]| && e.cursor <= |e.text| && NulFree(cmds[first])
    ensures
      var next := CharAt(cmds[first], size);
      Complete(cmds, first, e, size) ==
        if Differs(cmds, first, e.text, size, next) then e
        else if next == NUL then TypeInto(e, ' ')
        else if size < |cmds[first]| then Complete(cmds, first, TypeInto(e, next), size + 1)
        else e
    ensures CharAt(cmds[first], size) == NUL <==> size == |cmds[first]|
  {
  }

  /** Types the next character, a space at the end of the name, unless the commands differ in it. */
  method CompleteOne(cmds: seq<string>, first: nat, line: Line, size: nat, next: char, ghost before: Edit)
    returns (typed: bool, ghost after: Edit)
    requires line.Valid() && EditOf(line) == before && first < |cmds| && NulFree(cmds[first])
    requires size <= |cmds[first]| && next == CharAt(cmds[first], size)
    modifies line, line.buf
    ensures line.Valid() && EditOf(line) == after && after.cursor <= |after.text|
    ensures next != NUL ==> size < |cmds[first]|
    ensures typed <==> !Differs(cmds, first, before.text, size, next)
    ensures !typed ==> after == before
    ensures Complete(cmds, first, before, size) ==
      if typed && next != NUL then Complete(cmds, first, after, size + 1) else after
  {
    CompleteStep(cmds, first, before, size);
    var mismatch := FindMismatch(cmds, first, line, size, next);
    typed := !mismatch;
    if typed {
      Type(line, if next == NUL then ' ' else next);
    }
    after := EditOf(line);
  }

  /** One character at a time, as long as all matching commands agree on it. */
  method CompleteFrom(cmds: seq<string>, first: nat, line: Line) returns (completed: bool)
    requires line.Valid() && first < |cmds| && line.length <= |cmds[first]| && NulFree(cmds[first])
    modifies line, line.buf
    ensures line.Valid()
    ensures EditOf(line) == Complete(cmds, first, old(EditOf(line)), old(line.length))
    ensures completed <==> !Differs(cmds, first, old(line.Text()), old(line.length),
                                    CharAt(cmds[first], old(line.length)))
    ensures !completed ==> EditOf(line) == old(EditOf(line))
  {
    var size, next := line.length, CharAt(cmds[first], line.length);
    ghost var before := EditOf(line);
    ghost var e;
    completed, e := CompleteOne(cmds, first, line, size, next, before);
    if completed && next != NUL {
      CompleteRest(cmds, first, line, size + 1, e);
    }
  }

  /** The later rounds of the loop. */
  method CompleteRest(cmds: seq<string>, first: nat, line: Line, start: nat, ghost before: Edit)
    requires line.Valid() && EditOf(line) == before && before.cursor <= |before.text|
    requires first < |cmds| && start <= |cmds[first]| && NulFree(cmds[first])
    modifies line, line.buf
    ensures line.Valid() && EditOf(line) == Complete(cmds, first, before, start)
  {
    var size := start;
    ghost var e := before;
    ghost var goal := Complete(cmds, first, before, start);
    var more := true;
    while more
      invariant line.Valid() && EditOf(line) == e && e.cursor <= |e.text| && size <= |cmds[first]|
      invariant goal == if more then Complete(cmds, first, e, size) else e
      decreases more, |cmds[first]| - size
    {
      more, e := CompleteRound(cmds, first, line, size, e);
      if more {
        size := size + 1;
      }
    }
  }

  method CompleteRound(cmds: seq<string>, first: nat, line: Line, size: nat, ghost before: Edit)
    returns (more: bool, ghost after: Edit)
    requires line.Valid() && EditOf(line) == before && first < |cmds| && NulFree(cmds[first])
    requires size <= |cmds[first]|
    modifies line, line.buf
    ensures line.Valid() && EditOf(line) == after && after.cursor <= |after.text|
    ensures more ==> size < |cmds[first]|
    ensures Complete(cmds, first, before, size)
      == if more then Complete(cmds, first, after, size + 1) else after
  {
    var next := CharAt(cmds[first], size);
    var typed;
    typed, after := CompleteOne(cmds, first, line, size, next, before);
    more := typed && next != NUL;
  }

  lemma FirstMatchUnique(cmds: seq<string>, text: string, a: nat, b: nat)
    requires FirstMatch(cmds, text, a) && FirstMatch(cmds, text, b)
    ensures a == b
  {
  }

  /** All commands that start with a text, in table order. */
  function Alternatives(cmds: seq<string>, text: string): seq<string> {
    if cmds == [] then []
    else (if text <= cmds[0] then [cmds[0]] else []) + Alternatives(cmds[1..], text)
  }

  lemma {:induction false} NoAlternatives(cmds: seq<string>, text: string)
    requires forall i :: 0 <= i < |cmds| ==> !(text <= cmds[i])
    ensures Alternatives(cmds, text) == []
  {
    if cmds != [] {
      NoAlternatives(cmds[1..], text);
    }
  }

  lemma {:induction false} AlternativesFrom(cmds: seq<string>, text: string, i: nat)
    requires i <= |cmds| && forall k :: 0 <= k < i ==> !(text <= cmds[k])
    ensures Alternatives(cmds, text) == Alternatives(cmds[i..], text)
  {
    if i > 0 {
      AlternativesFrom(cmds[1..], text, i - 1);
      assert cmds[1..][i - 1..] == cmds[i..];
    }
  }

  lemma NextAlternative(cmds: seq<string>, text: string, i: nat, listed: seq<string>)
    requires i < |cmds| && text <= cmds[i]
    ensures listed + Alternatives(cmds[i..], text)
      == (listed + [cmds[i]]) + Alternatives(cmds[i + 1..], text)
  {
    assert cmds[i..][1..] == cmds[i + 1..];
  }

  /** Once a name after the first match does not match, no later one does. */
  lemma AlternativesEnd(cmds: seq<string>, text: string, first: nat, i: nat)
    requires Table(cmds) && NulFree(text) && FirstMatch(cmds, text, first)
    requires first <= i < |cmds| && !(text <= cmds[i])
    ensures Alternatives(cmds[i..], text) == []
  {
    NothingAfter(cmds, text, first, i);
    assert forall k :: 0 <= k < |cmds[i..]| ==> cmds[i..][k] == cmds[i + k];
    NoAlternatives(cmds[i..], text);
  }

  /** How far the matching names go from a place in the table on. */
  function Stretch(cmds: seq<string>, text: string): (n: nat)
    ensures n <= |cmds| && (n < |cmds| ==> !(text <= cmds[n]))
    ensures forall i :: 0 <= i < n ==> text <= cmds[i]
  {
    if cmds == [] || !(text <= cmds[0]) then 0 else 1 + Stretch(cmds[1..], text)
  }

  lemma {:induction false} StretchListed(cmds: seq<string>, text: string)
    requires forall i :: Stretch(cmds, text) <= i < |cmds| ==> !(text <= cmds[i])
    ensures Alternatives(cmds, text) == cmds[..Stretch(cmds, text)]
  {
    if cmds == [] || !(text <= cmds[0]) {
      NoAlternatives(cmds, text);
    } else {
      StretchListed(cmds[1..], text);
    }
  }

  /** After the stretch that starts with the first match no name matches any more. */
  lemma NothingAfter(cmds: seq<string>, text: string, first: nat, end: nat)
    requires Table(cmds) && FirstMatch(cmds, text, first) && first <= end < |cmds| && !(text <= cmds[end])
    ensures forall i :: end <= i < |cmds| ==> !(text <= cmds[i])
  {
    forall i | end < i < |cmds|
      ensures !(text <= cmds[i])
    {
      if text <= cmds[i] {
        PrefixBetween(text, cmds[first], cmds[end], cmds[i]);
      }
    }
  }

  /** The matching names are one stretch of the table: they are listed all, and nothing else is. */
  lemma AlternativesExactly(cmds: seq<string>, text: string, first: nat) returns (end: nat)
    requires Table(cmds) && FirstMatch(cmds, text, first)
    ensures first < end <= |cmds| && Alternatives(cmds, text) == cmds[first..end]
    ensures forall i :: 0 <= i < |cmds| ==> (text <= cmds[i] <==> first <= i < end)
  {
    var rest := cmds[first..];
    var n := Stretch(rest, text);
    end := first + n;
    assert rest[0] == cmds[first] && forall i :: first <= i < |cmds| ==> cmds[i] == rest[i - first];
    if end < |cmds| {
      NothingAfter(cmds, text, first, end);
    }
    AlternativesFrom(cmds, text, first);
    StretchListed(rest, text);
    assert rest[..n] == cmds[first..end];
  }

  /** Lists the matching commands: from the first one on, all up to one that does not match. */
  method ListAlternatives(cmds: seq<string>, first: nat, line: Line) returns (listed: seq<string>)
    requires line.Valid() && NulFree(line.Text()) && Table(cmds)
    requires FirstMatch(cmds, line.Text(), first)
    ensures listed == Alternatives(cmds, line.Text())
  {
    listed := ListMatching(cmds, first, line.buf[..line.length]);
  }

  method ListMatching(cmds: seq<string>, first: nat, text: string) returns (listed: seq<string>)
    requires NulFree(text) && Table(cmds) && FirstMatch(cmds, text, first)
    ensures listed == Alternatives(cmds, text)
  {
    var i := first;
    listed := [];
    ghost var all := Alternatives(cmds, text);
    AlternativesFrom(cmds, text, first);
    StrnEqualIsPrefix(cmds[first], text);
    while i < |cmds| && StrnEqual(cmds[i], text, |text|)
      invariant first <= i <= |cmds|
      invariant listed + Alternatives(cmds[i..], text) == all
    {
      StrnEqualIsPrefix(cmds[i], text);
      NextAlternative(cmds, text, i, listed);
      listed := listed + [cmds[i]];
      i := i + 1;
    }
    if i < |cmds| {
      StrnEqualIsPrefix(cmds[i], text);
      AlternativesEnd(cmds, text, first, i);
    }
  }

  /**
   Completes the line in place. A line that no command starts with is left alone; when the matching
   commands continue differently right away, the line is left alone and they are all listed.
   */
  method AutoComplete(cmds: seq<string>, line: Line) returns (listed: seq<string>)
    requires line.Valid() && NulFree(line.Text()) && Table(cmds)
    modifies line, line.buf
    ensures line.Valid()
    ensures (forall i :: 0 <= i < |cmds| ==> !(old(line.Text()) <= cmds[i])) ==>
      EditOf(line) == old(EditOf(line)) && listed == []
    ensures forall first: nat :: FirstMatch(cmds, old(line.Text()), first) ==>
      && EditOf(line) == Complete(cmds, first, old(EditOf(line)), |old(line.Text())|)
      && listed == if Differs(cmds, first, old(line.Text()), old(line.length),
                              CharAt(cmds[first], old(line.length)))
                   then Alternatives(cmds, old(line.Text())) else []
  {
    listed := [];
    var first := FindFirst(cmds, line);
    if first != -1 {
      forall other: nat | FirstMatch(cmds, line.Text(), other)
        ensures other == first
      {
        FirstMatchUnique(cmds, line.Text(), first, other);
      }
      var completed := CompleteFrom(cmds, first, line);
      if !completed {
        listed := ListAlternatives(cmds, first, line);
      }
    }
  }

  // ---------------------------------------------------------------- what completion means

  /** `p` starts every command that starts with `t`. */
  predicate CommonPrefix(cmds: seq<string>, t: string, p: string) {
    forall i :: 0 <= i < |cmds| && t <= cmds[i] ==> p <= cmds[i]
  }

  ghost predicate LongestCommonPrefix(cmds: seq<string>, t: string, p: string) {
    CommonPrefix(cmds, t, p) && forall r :: CommonPrefix(cmds, t, r) ==> r <= p
  }

  /** All matches have the same name. */
  predicate OnlyMatch(cmds: seq<string>, t: string, first: nat)
    requires first < |cmds|
  {
    forall i :: 0 <= i < |cmds| && t <= cmds[i] ==> cmds[i] == cmds[first]
  }

  /** The longest common prefix of the matches, plus a space exactly when there is only one name. */
  ghost predicate Completed(cmds: seq<string>, t: string, first: nat, text: string)
    requires first < |cmds|
  {
    exists p :: LongestCommonPrefix(cmds, t, p)
      && text == if OnlyMatch(cmds, t, first) then p + " " else p
  }

  /** The names matching a text are contiguous, so the scan up to the first other name sees all. */
  lemma {:induction false} DiffersExactly(cmds: seq<string>, first: nat, i: nat, text: string, next: char)
    requires Table(cmds) && FirstMatch(cmds, text, first) && first <= i <= |cmds|
    requires forall k :: first <= k < i ==> text <= cmds[k]
    ensures Differs(cmds, i, text, |text|, next) <==>
      exists k :: i <= k < |cmds| && text <= cmds[k] && CharAt(cmds[k], |text|) != next
    decreases |cmds| - i
  {
    if i < |cmds| {
      StrnEqualIsPrefix(cmds[i], text);
      if text <= cmds[i] {
        DiffersExactly(cmds, first, i + 1, text, next);
      } else {
        forall k | i <= k < |cmds|
          ensures !(text <= cmds[k])
        {
          if i < k && text <= cmds[k] {
            assert first < i;
            PrefixBetween(text, cmds[first], cmds[i], cmds[k]);
          }
        }
      }
    }
  }

  /** A text whose matches differ next is as long as a common prefix gets. */
  lemma StopsAtLongest(cmds: seq<string>, first: nat, text: string, k: nat)
    requires FirstMatch(cmds, text, first) && k < |cmds| && text <= cmds[k]
    requires CharAt(cmds[k], |text|) != CharAt(cmds[first], |text|)
    ensures LongestCommonPrefix(cmds, text, text)
  {
    forall r | CommonPrefix(cmds, text, r)
      ensures r <= text
    {
      assert r <= cmds[first] && r <= cmds[k];
    }
  }

  /** When all matches continue alike, the longer text has the same matches. */
  lemma SameMatches(cmds: seq<string>, t: string, text: string, next: char)
    requires forall i :: 0 <= i < |cmds| ==> (t <= cmds[i] <==> text <= cmds[i])
    requires forall i :: 0 <= i < |cmds| && text <= cmds[i] ==>
      |text| < |cmds[i]| && cmds[i][|text|] == next
    ensures forall i :: 0 <= i < |cmds| ==> (t <= cmds[i] <==> text + [next] <= cmds[i])
  {
  }

  lemma LongestTransfers(cmds: seq<string>, t: string, text: string)
    requires forall i :: 0 <= i < |cmds| ==> (t <= cmds[i] <==> text <= cmds[i])
    requires LongestCommonPrefix(cmds, text, text)
    ensures LongestCommonPrefix(cmds, t, text)
  {
    forall r | CommonPrefix(cmds, t, r)
      ensures r <= text
    {
      assert CommonPrefix(cmds, text, r);
    }
  }

  /** The loop, from a text with the same matches as the line it started from. */
  lemma {:induction false} CompleteReachesLongest(cmds: seq<string>, t: string, first: nat, text: string)
    requires Table(cmds) && FirstMatch(cmds, t, first) && FirstMatch(cmds, text, first)
    requires |cmds[first]| <= COMMAND_MAX - 2
    requires forall i :: 0 <= i < |cmds| ==> (t <= cmds[i] <==> text <= cmds[i])
    ensures var e := Complete(cmds, first, Edit(text, |text|), |text|);
      e.cursor == |e.text| && Completed(cmds, t, first, e.text)
    decreases |cmds[first]| - |text|
  {
    var next := CharAt(cmds[first], |text|);
    DiffersExactly(cmds, first, first, text, next);
    CompleteAtEnd(cmds, first, text);
    if Differs(cmds, first, text, |text|, next) {
      StopsCompleted(cmds, t, first, text);
    } else if |text| == |cmds[first]| {
      AllEqual(cmds, t, first, text);
    } else {
      ContinuesAlike(cmds, first, text);
      SameMatches(cmds, t, text, next);
      CompleteReachesLongest(cmds, t, first, text + [next]);
    }
  }

  /** One round of the loop with the cursor at the end. */
  lemma CompleteAtEnd(cmds: seq<string>, first: nat, text: string)
    requires first < |cmds| && |text| <= |cmds[first]| <= COMMAND_MAX - 2
    ensures
      var next := CharAt(cmds[first], |text|);
      Complete(cmds, first, Edit(text, |text|), |text|) ==
        if Differs(cmds, first, text, |text|, next) then Edit(text, |text|)
        else if |text| == |cmds[first]| then Edit(text + " ", |text + " "|)
        else Complete(cmds, first, Edit(text + [next], |text + [next]|), |text + [next]|)
  {
    assert forall ch :: Typed(text, |text|, ch) == text + [ch];
  }

  lemma StopsCompleted(cmds: seq<string>, t: string, first: nat, text: string)
    requires FirstMatch(cmds, t, first) && FirstMatch(cmds, text, first)
    requires forall i :: 0 <= i < |cmds| ==> (t <= cmds[i] <==> text <= cmds[i])
    requires exists k ::
      first <= k < |cmds| && text <= cmds[k] && CharAt(cmds[k], |text|) != CharAt(cmds[first], |text|)
    ensures Completed(cmds, t, first, text)
  {
    var k :| first <= k < |cmds| && text <= cmds[k]
      && CharAt(cmds[k], |text|) != CharAt(cmds[first], |text|);
    StopsAtLongest(cmds, first, text, k);
    LongestTransfers(cmds, t, text);
    assert !OnlyMatch(cmds, t, first);
  }

  /** A text that is a whole name and continues alike in all matches is the name of all of them. */
  lemma AllEqual(cmds: seq<string>, t: string, first: nat, text: string)
    requires Table(cmds) && FirstMatch(cmds, text, first) && text == cmds[first]
    requires forall k :: first <= k < |cmds| && text <= cmds[k] ==>
      CharAt(cmds[k], |text|) == CharAt(cmds[first], |text|)
    requires forall i :: 0 <= i < |cmds| ==> (t <= cmds[i] <==> text <= cmds[i])
    ensures Completed(cmds, t, first, text + " ")
  {
    forall i | 0 <= i < |cmds| && t <= cmds[i]
      ensures cmds[i] == cmds[first]
    {
      assert text <= cmds[i] && first <= i;
      assert CharAt(cmds[i], |text|) == NUL && NulFree(cmds[i]);
      assert |cmds[i]| == |text|;
    }
    forall r | CommonPrefix(cmds, t, r)
      ensures r <= text
    {
      assert text <= cmds[first];
    }
    assert OnlyMatch(cmds, t, first) && LongestCommonPrefix(cmds, t, text);
  }

  lemma ContinuesAlike(cmds: seq<string>, first: nat, text: string)
    requires Table(cmds) && FirstMatch(cmds, text, first) && |text| < |cmds[first]|
    requires forall k :: first <= k < |cmds| && text <= cmds[k] ==>
      CharAt(cmds[k], |text|) == CharAt(cmds[first], |text|)
    ensures forall i :: 0 <= i < |cmds| && text <= cmds[i] ==>
      |text| < |cmds[i]| && cmds[i][|text|] == cmds[first][|text|]
  {
    forall i | 0 <= i < |cmds| && text <= cmds[i]
      ensures |text| < |cmds[i]| && cmds[i][|text|] == cmds[first][|text|]
    {
      assert first <= i && NulFree(cmds[first]);
      assert CharAt(cmds[i], |text|) == cmds[first][|text|];
    }
  }

  /** There is only one longest common prefix. */
  lemma LongestIsUnique(cmds: seq<string>, t: string, p: string, q: string)
    requires LongestCommonPrefix(cmds, t, p) && LongestCommonPrefix(cmds, t, q)
    ensures p == q
  {
    assert p <= q && q <= p;
  }

  /** The longest common prefix of the commands that start with a line some command starts with. */
  ghost function Longest(cmds: seq<string>, t: string, first: nat): (p: string)
    requires Table(cmds) && FirstMatch(cmds, t, first) && |cmds[first]| <= COMMAND_MAX - 2
    ensures LongestCommonPrefix(cmds, t, p)
  {
    CompleteReachesLongest(cmds, t, first, t);
    var p :| LongestCommonPrefix(cmds, t, p);
    p
  }

  /**
   With the cursor at the end of the line and names of at most 254 characters, completion replaces a
   matching line by the longest common prefix of the commands that start with it, plus a space
   exactly when they all have the same name.
   */
  lemma CompletionIsLongestCommonPrefix(cmds: seq<string>, t: string, first: nat)
    requires Table(cmds) && FirstMatch(cmds, t, first)
    requires forall i :: 0 <= i < |cmds| ==> |cmds[i]| <= 254
    ensures Complete(cmds, first, Edit(t, |t|), |t|).text
      == Longest(cmds, t, first) + if OnlyMatch(cmds, t, first) then " " else ""
    ensures Complete(cmds, first, Edit(t, |t|), |t|).cursor
      == |Complete(cmds, first, Edit(t, |t|), |t|).text|
  {
    CompleteReachesLongest(cmds, t, first, t);
    var text := Complete(cmds, first, Edit(t, |t|), |t|).text;
    var p :| LongestCommonPrefix(cmds, t, p)
      && text == if OnlyMatch(cmds, t, first) then p + " " else p;
    LongestIsUnique(cmds, t, p, Longest(cmds, t, first));
    assert p + "" == p;
  }

  lemma {:induction false} CompleteFitsBuffer(cmds: seq<string>, first: nat, e: Edit, size: nat)
    requires first < |cmds| && size <= |cmds[first]| && e.cursor <= |e.text| < COMMAND_MAX
    ensures |Complete(cmds, first, e, size).text| < COMMAND_MAX
    decreases |cmds[first]| - size
  {
    var next := CharAt(cmds[first], size);
    if !Differs(cmds, first, e.text, size, next) && size < |cmds[first]| {
      CompleteFitsBuffer(cmds, first, TypeInto(e, next), size + 1);
    }
  }

  lemma OnlyMatchIsLongest(cmds: seq<string>, t: string, first: nat, p: string)
    requires FirstMatch(cmds, t, first) && OnlyMatch(cmds, t, first) && LongestCommonPrefix(cmds, t, p)
    ensures p == cmds[first]
  {
    assert CommonPrefix(cmds, t, cmds[first]);
  }

  /** The only matching name is completed with a space exactly when both fit, that is, up to 254. */
  lemma SpaceFollowsExactlyUpTo254(cmds: seq<string>, t: string, first: nat)
    requires Table(cmds) && FirstMatch(cmds, t, first) && OnlyMatch(cmds, t, first)
    requires |t| < 256
    ensures Complete(cmds, first, Edit(t, |t|), |t|).text == cmds[first] + " "
      <==> |cmds[first]| <= 254
  {
    if |cmds[first]| <= COMMAND_MAX - 2 {
      CompleteReachesLongest(cmds, t, first, t);
      var p :| LongestCommonPrefix(cmds, t, p)
        && Complete(cmds, first, Edit(t, |t|), |t|).text == p + " ";
      OnlyMatchIsLongest(cmds, t, first, p);
    } else {
      CompleteFitsBuffer(cmds, first, Edit(t, |t|), |t|);
    }
  }
}
