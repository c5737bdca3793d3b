/**
 The shell's tokenizer as it works: in place on one NUL-terminated buffer. Quotes and escaping
 backslashes are removed by moving the rest of the text, separators become terminators, and the
 arguments are positions in the buffer.
 */
module ShellParser {
  import opened ShellTokens
  import opened Wrappers
  import opened CStrings

  /** At position `p` of the buffer there is a NUL-terminated string with contents `s`. */
  ghost predicate CString(a: array<char>, p: nat, s: string)
    reads a
  {
    && p + |s| < a.Length
    && (forall i :: 0 <= i < |s| ==> a[p + i] == s[i] && s[i] != NUL)
    && a[p + |s|] == NUL
  }

  /** The first NUL from `p` on ends the string. */
  lemma EndsAtNul(a: array<char>, p: nat, s: string, n: nat)
    requires CString(a, p, s) && n <= |s|
    ensures a[p + n] == NUL <==> n == |s|
    ensures n < |s| ==> a[p + n] == s[n]
  {
  }

  /** The memmove that removes the character at `p` from the string that starts there. */
  method RemoveAt(a: array<char>, p: nat, ghost s: string)
    requires CString(a, p, s) && s != ""
    modifies a
    ensures CString(a, p, s[1..])
    ensures forall i :: 0 <= i < p ==> a[i] == old(a[i])
  {
    var n := StrLen(a, p, s);
    forall i | p <= i < p + n {
      a[i] := a[i + 1];
    }
  }

  method StrLen(a: array<char>, p: nat, ghost s: string) returns (n: nat)
    requires CString(a, p, s)
    ensures n == |s|
  {
    n := 0;
    EndsAtNul(a, p, s, n);
    while a[p + n] != NUL
      invariant n <= |s| && (a[p + n] == NUL <==> n == |s|)
      decreases |s| - n
    {
      n := n + 1;
      EndsAtNul(a, p, s, n);
    }
  }

  /** Where the tokenizer stands inside an argument: what it has read and what is left. */
  ghost predicate MidScan(a: array<char>, p: nat, q: nat, done: string, todo: string)
    reads a
  {
    && q == p + |done| && CString(a, q, todo)
    && forall i :: 0 <= i < |done| ==> a[p + i] == done[i] && done[i] != NUL
  }

  lemma MidScanAdvance(a: array<char>, p: nat, q: nat, done: string, todo: string)
    requires MidScan(a, p, q, done, todo) && todo != ""
    ensures MidScan(a, p, q + 1, done + [todo[0]], todo[1..])
  {
  }

  /** What the next character of the text does to the scan. */
  lemma ScanNext(done: string, todo: string, inQuote: bool)
    requires todo != ""
    ensures todo[0] == BACKSLASH && |todo| > 1 && todo[1] == QUOTE ==>
      Prepend(done, Scan(todo, inQuote)) == Prepend(done + [QUOTE], Scan(todo[1..][1..], inQuote))
    ensures todo[0] == BACKSLASH && !(|todo| > 1 && todo[1] == QUOTE) ==>
      Prepend(done, Scan(todo, inQuote)) == Prepend(done + [BACKSLASH], Scan(todo[1..], inQuote))
    ensures todo[0] == QUOTE ==> Scan(todo, inQuote) == Scan(todo[1..], !inQuote)
    ensures todo[0] != BACKSLASH && todo[0] != QUOTE && (todo[0] == ' ' ==> inQuote) ==>
      Prepend(done, Scan(todo, inQuote)) == Prepend(done + [todo[0]], Scan(todo[1..], inQuote))
  {
    if todo[0] == BACKSLASH && |todo| > 1 && todo[1] == QUOTE {
      assert todo[1..][1..] == todo[2..];
      PrependPrepend(done, [QUOTE], Scan(todo[2..], inQuote));
    } else {
      PrependPrepend(done, [todo[0]], Scan(todo[1..], inQuote));
    }
  }

  /** Drops the character where the tokenizer stands. */
  method Drop(a: array<char>, p: nat, q: nat, ghost done: string, ghost todo: string)
    requires MidScan(a, p, q, done, todo) && todo != ""
    modifies a
    ensures MidScan(a, p, q, done, todo[1..])
    ensures forall i :: 0 <= i < p ==> a[i] == old(a[i])
  {
    RemoveAt(a, q, todo);
  }

  /** Ends the argument at the space where the tokenizer stands. */
  method Terminate(a: array<char>, p: nat, q: nat, ghost done: string, ghost todo: string)
    requires MidScan(a, p, q, done, todo) && todo != ""
    modifies a
    ensures CString(a, p, done) && CString(a, q + 1, todo[1..])
    ensures forall i :: 0 <= i < p ==> a[i] == old(a[i])
  {
    a[q] := NUL;
  }

  /** A backslash in front of a quote is dropped. */
  method Unescape(a: array<char>, p: nat, q: nat, ghost done: string, ghost todo: string)
    returns (ghost left: string)
    requires MidScan(a, p, q, done, todo) && todo != "" && todo[0] == BACKSLASH
    modifies a
    ensures left == if |todo| > 1 && todo[1] == QUOTE then todo[1..] else todo
    ensures MidScan(a, p, q, done, left)
    ensures forall i :: 0 <= i < p ==> a[i] == old(a[i])
  {
    EndsAtNul(a, q, todo, 1);
    left := todo;
    if a[q + 1] == QUOTE {
      Drop(a, p, q, done, todo);
      left := todo[1..];
    }
  }

  /**
   Parses one argument; the result is the position after it, -1 when a quote is left open. The
   buffer before the argument is not touched.
   */
  method ParseArgument(a: array<char>, p: nat, ghost s: string) returns (next: int)
    requires CString(a, p, s)
    modifies a
    ensures next == -1 || p <= next
    ensures next == -1 <==> Scan(s, false).None?
    ensures next != -1 ==>
      var t := Scan(s, false).value;
      && p + |t.arg| <= next && CString(a, p, t.arg) && CString(a, next, t.rest)
      && (t.rest != "" ==> p + |t.arg| < next)
    ensures forall i :: 0 <= i < p ==> a[i] == old(a[i])
  {
    var inQuote := false;
    var q: nat := p;
    ghost var done, todo := "", s;
    PrependNothing(Scan(s, false));
    while a[q] != NUL
      invariant MidScan(a, p, q, done, todo)
      invariant Scan(s, false) == Prepend(done, Scan(todo, inQuote))
      invariant forall i :: 0 <= i < p ==> a[i] == old(a[i])
      decreases |todo|
    {
      EndsAtNul(a, q, todo, 0);
      ScanNext(done, todo, inQuote);
      if a[q] == BACKSLASH {
        todo := Unescape(a, p, q, done, todo);
        MidScanAdvance(a, p, q, done, todo);
        done, todo := done + [todo[0]], todo[1..];
        q := q + 1;
      } else if a[q] == QUOTE {
        Drop(a, p, q, done, todo);
        inQuote := !inQuote;
        todo := todo[1..];
      } else if a[q] == ' ' && !inQuote {
        Terminate(a, p, q, done, todo);
        next := q + 1;
        return;
      } else {
        MidScanAdvance(a, p, q, done, todo);
        done, todo := done + [todo[0]], todo[1..];
        q := q + 1;
      }
    }
    EndsAtNul(a, q, todo, 0);
    next := if inQuote then -1 else q;
  }

  // ---------------------------------------------------------------- stripping

  /** Overwrites trailing white space with terminators. */
  method RStripInPlace(a: array<char>, p: nat, ghost s: string)
    requires CString(a, p, s)
    modifies a
    ensures CString(a, p, RStrip(s))
    ensures forall i :: 0 <= i < p ==> a[i] == old(a[i])
  {
    var length := StrLen(a, p, s);
    var q := p + length - 1;
    ghost var r := s;
    while q >= p && IsSpace(a[q])
      invariant CString(a, p, r) && q == p + |r| - 1 && RStrip(s) == RStrip(r)
      invariant forall i :: 0 <= i < p ==> a[i] == old(a[i])
    {
      a[q] := NUL;
      q := q - 1;
      r := r[..|r| - 1];
    }
  }

  /** Skips leading white space. */
  method LStripFrom(a: array<char>, p: nat, ghost s: string) returns (q: nat)
    requires CString(a, p, s)
    ensures p <= q && CString(a, q, LStrip(s))
  {
    q := p;
    ghost var r := s;
    EndsAtNul(a, q, r, 0);
    while a[q] != NUL && IsSpace(a[q])
      invariant p <= q && CString(a, q, r) && LStrip(s) == LStrip(r)
      invariant a[q] == NUL <==> r == ""
      decreases |r|
    {
      q := q + 1;
      r := r[1..];
      EndsAtNul(a, q, r, 0);
    }
    EndsAtNul(a, q, r, 0);
  }

  method StripInPlace(a: array<char>, p: nat, ghost s: string) returns (q: nat)
    requires CString(a, p, s)
    modifies a
    ensures p <= q && CString(a, q, Strip(s))
    ensures forall i :: 0 <= i < p ==> a[i] == old(a[i])
  {
    RStripInPlace(a, p, s);
    q := LStripFrom(a, p, RStrip(s));
  }

  // ---------------------------------------------------------------- whole command lines

  /** The arguments found so far, each ending before position `q` while there is more to parse. */
  ghost predicate Found(a: array<char>, argv: seq<nat>, args: seq<string>, q: nat, rest: string)
    reads a
  {
    && |argv| == |args|
    && (forall k :: 0 <= k < |argv| ==> CString(a, argv[k], args[k]))
    && (rest != "" ==> forall k :: 0 <= k < |argv| ==> argv[k] + |args[k]| < q)
  }

  lemma CStringFrame(a: array<char>, before: seq<char>, p: nat, s: string, q: nat)
    requires p + |s| < q <= a.Length == |before| && a[..q] == before[..q]
    requires forall i :: 0 <= i < |s| ==> before[p + i] == s[i] && s[i] != NUL
    requires before[p + |s|] == NUL
    ensures CString(a, p, s)
  {
    assert forall i :: 0 <= i < q ==> a[i] == a[..q][i] && before[i] == before[..q][i];
  }

  /** Parses the next argument and leaves those found before alone. */
  method NextArgument(a: array<char>, q: nat, argv: seq<nat>, ghost args: seq<string>, ghost rest: string)
    returns (begin: nat, next: int)
    requires CString(a, q, rest) && rest != "" && Found(a, argv, args, q, rest)
    modifies a
    ensures next == -1 || 0 <= next
    ensures next == -1 <==> Scan(Strip(rest), false).None?
    ensures next != -1 ==>
      var t := Scan(Strip(rest), false).value;
      CString(a, next, t.rest) && Found(a, argv + [begin], args + [t.arg], next, t.rest)
  {
    ghost var before := a[..];
    begin := StripInPlace(a, q, rest);
    next := ParseArgument(a, begin, Strip(rest));
    assert a[..q] == before[..q];
    forall k | 0 <= k < |argv|
      ensures CString(a, argv[k], args[k])
    {
      CStringFrame(a, before, argv[k], args[k], q);
    }
  }

  /** The same, with what the arguments found so far make of the whole result. */
  method OneMoreArgument(a: array<char>, q: nat, argv: seq<nat>, ghost args: seq<string>,
                         ghost rest: string, ghost all: Option<seq<string>>)
    returns (begin: nat, next: int, ghost found: seq<string>, ghost left: string)
    requires CString(a, q, rest) && rest != "" && Found(a, argv, args, q, rest)
    requires |argv| < MAX_ARGS && all == Continue(args, Args(rest, MAX_ARGS - |argv|))
    modifies a
    ensures next == -1 || 0 <= next
    ensures next == -1 ==> all.None?
    ensures next != -1 ==>
      && CString(a, next, left) && Found(a, argv + [begin], found, next, left) && |left| < |rest|
      && all == Continue(found, Args(left, MAX_ARGS - |argv| - 1))
  {
    begin, next := NextArgument(a, q, argv, args, rest);
    found, left := args, rest;
    if next != -1 {
      ContinueOneMore(args, rest, MAX_ARGS - |argv|);
      var t := Scan(Strip(rest), false).value;
      found, left := args + [t.arg], t.rest;
    }
  }

  method ParseArgs(a: array<char>, p: nat, ghost text: string) returns (argc: int, argv: seq<nat>)
    requires CString(a, p, text)
    modifies a
    ensures argc == -1 <==> Args(text, MAX_ARGS).None?
    ensures argc != -1 ==> argc == |argv| && Found(a, argv, Args(text, MAX_ARGS).value, 0, "")
  {
    argv := [];
    var q: nat := p;
    ghost var args, rest := [], text;
    ghost var all := Args(text, MAX_ARGS);
    ContinueEnds(args, all);
    EndsAtNul(a, q, rest, 0);
    while a[q] != NUL
      invariant CString(a, q, rest) && Found(a, argv, args, q, rest)
      invariant a[q] == NUL <==> rest == ""
      invariant |argv| <= MAX_ARGS
      invariant all == Continue(args, Args(rest, MAX_ARGS - |argv|))
      decreases |rest|
    {
      if |argv| == MAX_ARGS {
        return -1, [];
      }
      var begin, next;
      begin, next, args, rest := OneMoreArgument(a, q, argv, args, rest, all);
      if next == -1 {
        return -1, [];
      }
      argv, q := argv + [begin], next;
      EndsAtNul(a, q, rest, 0);
    }
    ContinueEnds(args, Some([]));
    argc := |argv|;
  }

  /**
   Parses a command line. The result is -1 or the number of arguments; each recorded position holds
   exactly the argument that the quoting rules give.
   */
  method ParseCommandInPlace(a: array<char>, p: nat, ghost line: string) returns (argc: int, argv: seq<nat>)
    requires CString(a, p, line)
    modifies a
    ensures argc == -1 <==> ParseCommand(line).None?
    ensures argc != -1 ==>
      var args := ParseCommand(line).value;
      && argc == |argv| == |args|
      && forall k :: 0 <= k < argc ==> CString(a, argv[k], args[k])
  {
    var q := StripInPlace(a, p, line);
    var length := StrLen(a, q, Strip(line));
    if length == 0 {
      return -1, [];
    }
    argc, argv := ParseArgs(a, q, Strip(line));
  }

  function Continue(args: seq<string>, more: Option<seq<string>>): Option<seq<string>> {
    if more.None? then None else Some(args + more.value)
  }

  lemma ContinueOneMore(args: seq<string>, rest: string, budget: nat)
    requires rest != "" && budget > 0 && Scan(Strip(rest), false).Some?
    ensures var t := Scan(Strip(rest), false).value;
      && |t.rest| < |rest|
      && Continue(args, Args(rest, budget)) == Continue(args + [t.arg], Args(t.rest, budget - 1))
  {
    var t := Scan(Strip(rest), false).value;
    var more := Args(t.rest, budget - 1);
    if more.Some? {
      assert args + ([t.arg] + more.value) == args + [t.arg] + more.value;
    }
  }

  lemma ContinueEnds(args: seq<string>, more: Option<seq<string>>)
    ensures args == [] ==> Continue(args, more) == more
    ensures more == Some([]) ==> Continue(args, more) == Some(args)
  {
    if more.Some? {
      assert [] + more.value == more.value;
      assert args + [] == args;
    }
  }
}
