/**
 The shell's quoting rules as a pure tokenizer. Arguments are separated by spaces; double quotes
 group, and are removed; a backslash before a double quote makes it an ordinary character, inside
 and outside quotes; any other backslash is kept.
 */
module ShellTokens {
  import opened Wrappers

  const QUOTE: char := '\"'
  const BACKSLASH: char := '\\'
  const MAX_ARGS: nat := 32

  predicate IsSpace(c: char) {
    c == '\t' || c == '\n' || c == '\U{0b}' || c == '\U{0c}' || c == '\r' || c == ' '
  }

  function LStrip(s: string): string {
    if s != "" && IsSpace(s[0]) then LStrip(s[1..]) else s
  }

  function RStrip(s: string): string {
    if s != "" && IsSpace(s[|s| - 1]) then RStrip(s[..|s| - 1]) else s
  }

  function Strip(s: string): (r: string)
    ensures |r| <= |s|
  {
    RStripShorter(s);
    LStripShorter(RStrip(s));
    LStrip(RStrip(s))
  }

  lemma LStripShorter(s: string)
    ensures |LStrip(s)| <= |s|
  {
  }

  lemma RStripShorter(s: string)
    ensures |RStrip(s)| <= |s|
  {
  }

  /** The white space of the C library, written out. */
  predicate Blank(c: char) {
    c in "\t\n\U{0b}\U{0c}\r "
  }

  predicate AllBlank(s: string) {
    forall i :: 0 <= i < |s| ==> Blank(s[i])
  }

  /** Neither starts nor ends with white space. */
  predicate Trimmed(s: string) {
    s != "" ==> !Blank(s[0]) && !Blank(s[|s| - 1])
  }

  lemma BlankIsSpace(c: char)
    ensures Blank(c) <==> IsSpace(c)
  {
  }

  lemma {:induction false} LStripSplits(s: string) returns (l: string)
    ensures s == l + LStrip(s) && AllBlank(l)
    ensures LStrip(s) != "" ==> !Blank(LStrip(s)[0])
  {
    l := "";
    if s != "" {
      BlankIsSpace(s[0]);
      if IsSpace(s[0]) {
        var rest := LStripSplits(s[1..]);
        l := [s[0]] + rest;
      }
    }
  }

  lemma {:induction false} RStripSplits(s: string) returns (r: string)
    ensures s == RStrip(s) + r && AllBlank(r)
    ensures RStrip(s) != "" ==> !Blank(RStrip(s)[|RStrip(s)| - 1])
  {
    r := "";
    if s != "" {
      var n := |s| - 1;
      BlankIsSpace(s[n]);
      if IsSpace(s[n]) {
        var rest := RStripSplits(s[..n]);
        r := rest + [s[n]];
      }
    }
  }

  /** Stripping splits a text into white space, a text without any at its ends, and white space. */
  lemma StripSplits(s: string) returns (l: string, r: string)
    ensures s == l + Strip(s) + r && AllBlank(l) && AllBlank(r) && Trimmed(Strip(s))
  {
    r := RStripSplits(s);
    l := LStripSplits(RStrip(s));
  }

  lemma {:induction false} LStripBlank(l: string, s: string)
    requires AllBlank(l) && (s != "" ==> !Blank(s[0]))
    ensures LStrip(l + s) == s
  {
    if l == "" {
      assert l + s == s;
      if s != "" {
        BlankIsSpace(s[0]);
      }
    } else {
      BlankIsSpace(l[0]);
      assert (l + s)[1..] == l[1..] + s;
      LStripBlank(l[1..], s);
    }
  }

  lemma {:induction false} RStripBlank(s: string, r: string)
    requires AllBlank(r) && (s != "" ==> !Blank(s[|s| - 1]))
    ensures RStrip(s + r) == s
  {
    if r == "" {
      assert s + r == s;
      if s != "" {
        BlankIsSpace(s[|s| - 1]);
      }
    } else {
      var n := |r| - 1;
      BlankIsSpace(r[n]);
      assert (s + r)[..|s + r| - 1] == s + r[..n];
      RStripBlank(s, r[..n]);
    }
  }

  /** There is only one such text: what is between the white space is what stripping leaves. */
  lemma StripExactly(l: string, s: string, r: string)
    requires AllBlank(l) && AllBlank(r) && Trimmed(s)
    ensures Strip(l + s + r) == s
  {
    if s == "" {
      assert l + s + r == "" + (l + r);
      RStripBlank("", l + r);
    } else {
      RStripBlank(l + s, r);
      LStripBlank(l, s);
    }
  }

  /** A text is stripped to nothing exactly when it is all white space. */
  lemma StripsToNothing(s: string)
    ensures Strip(s) == "" <==> AllBlank(s)
  {
    var l, r := StripSplits(s);
    if AllBlank(s) {
      StripExactly("", "", s);
      assert "" + "" + s == s;
    }
  }

  /** One argument and what follows it. */
  datatype Token = Token(arg: string, rest: string)

  function Prepend(s: string, t: Option<Token>): Option<Token> {
    if t.None? then None else Some(Token(s + t.value.arg, t.value.rest))
  }

  function Scan(s: string, inQuote: bool): (t: Option<Token>)
    ensures t.Some? ==> |t.value.rest| <= |s| && (s != "" ==> |t.value.rest| < |s|)
    decreases |s|
  {
    if s == "" then
      if inQuote then None else Some(Token("", ""))
    else if s[0] == BACKSLASH then
      if |s| > 1 && s[1] == QUOTE then Prepend([QUOTE], Scan(s[2..], inQuote))
      else Prepend([BACKSLASH], Scan(s[1..], inQuote))
    else if s[0] == QUOTE then
      Scan(s[1..], !inQuote)
    else if s[0] == ' ' && !inQuote then
      Some(Token("", s[1..]))
    else
      Prepend([s[0]], Scan(s[1..], inQuote))
  }

  /** All arguments of a text, however many; `None` when a quote is left open. */
  function Tokenize(s: string): Option<seq<string>>
    decreases |s|
  {
    if s == "" then Some([])
    else
      var t := Scan(Strip(s), false);
      if t.None? then None
      else
        assert |t.value.rest| < |s|;
        var more := Tokenize(t.value.rest);
        if more.None? then None else Some([t.value.arg] + more.value)
  }

  /** The arguments when there are at most `budget` of them. */
  function Args(s: string, budget: nat): Option<seq<string>>
    decreases |s|
  {
    if s == "" then Some([])
    else if budget == 0 then None
    else
      var t := Scan(Strip(s), false);
      if t.None? then None
      else
        assert |t.value.rest| < |s|;
        var more := Args(t.value.rest, budget - 1);
        if more.None? then None else Some([t.value.arg] + more.value)
  }

  function ParseCommand(line: string): Option<seq<string>> {
    var s := Strip(line);
    if s == "" then None else Args(s, MAX_ARGS)
  }

  lemma {:induction false} ArgsAreTokens(s: string, budget: nat)
    ensures Args(s, budget) == if Tokenize(s).Some? && |Tokenize(s).value| <= budget then Tokenize(s) else None
    decreases |s|
  {
    if s != "" {
      var t := Scan(Strip(s), false);
      if t.Some? {
        assert |t.value.rest| < |s|;
        ArgsAreTokens(t.value.rest, if budget == 0 then 0 else budget - 1);
      }
    }
  }

  // ---------------------------------------------------------------- when parsing fails

  /** The number of double quotes that are not escaped. */
  function Quotes(s: string): nat
    decreases |s|
  {
    if s == "" then 0
    else if s[0] == BACKSLASH && |s| > 1 && s[1] == QUOTE then Quotes(s[2..])
    else (if s[0] == QUOTE then 1 else 0) + Quotes(s[1..])
  }

  /** Whether that number is odd. */
  predicate Odd(s: string)
    decreases |s|
  {
    if s == "" then false
    else if s[0] == BACKSLASH && |s| > 1 && s[1] == QUOTE then Odd(s[2..])
    else if s[0] == QUOTE then !Odd(s[1..])
    else Odd(s[1..])
  }

  lemma {:induction false} OddIsParity(s: string)
    ensures Odd(s) <==> Quotes(s) % 2 == 1
    decreases |s|
  {
    if s == "" {
    } else if s[0] == BACKSLASH && |s| > 1 && s[1] == QUOTE {
      OddIsParity(s[2..]);
    } else {
      OddIsParity(s[1..]);
    }
  }

  /** An argument ends outside quotes, so the parity of the quotes after it is that of all. */
  lemma {:induction false} ScanParity(s: string, inQuote: bool)
    ensures var t := Scan(s, inQuote);
      if t.None? then Odd(s) != inQuote else Odd(t.value.rest) == (Odd(s) != inQuote)
    decreases |s|
  {
    if s == "" {
    } else if s[0] == BACKSLASH {
      if |s| > 1 && s[1] == QUOTE {
        ScanParity(s[2..], inQuote);
      } else {
        ScanParity(s[1..], inQuote);
      }
    } else if s[0] == QUOTE {
      ScanParity(s[1..], !inQuote);
    } else if !(s[0] == ' ' && !inQuote) {
      ScanParity(s[1..], inQuote);
    }
  }

  lemma {:induction false} QuotesLStrip(s: string)
    ensures Quotes(LStrip(s)) == Quotes(s)
  {
    if s != "" && IsSpace(s[0]) {
      QuotesLStrip(s[1..]);
    }
  }

  lemma {:induction false} QuotesSnoc(s: string, c: char)
    requires c != QUOTE
    ensures Quotes(s + [c]) == Quotes(s)
    decreases |s|
  {
    if s == "" {
      assert s + [c] == [c];
      assert [c][1..] == "";
    } else if s[0] == BACKSLASH && |s| > 1 && s[1] == QUOTE {
      assert (s + [c])[2..] == s[2..] + [c];
      QuotesSnoc(s[2..], c);
    } else {
      assert (s + [c])[1..] == s[1..] + [c];
      QuotesSnoc(s[1..], c);
    }
  }

  lemma {:induction false} QuotesRStrip(s: string)
    ensures Quotes(RStrip(s)) == Quotes(s)
  {
    if s != "" && IsSpace(s[|s| - 1]) {
      var n := |s| - 1;
      QuotesSnoc(s[..n], s[n]);
      assert s[..n] + [s[n]] == s;
      QuotesRStrip(s[..n]);
    }
  }

  lemma {:induction false} TokenizeFailsOnOddQuotes(s: string)
    ensures Tokenize(s).None? <==> Quotes(s) % 2 == 1
    decreases |s|
  {
    if s != "" {
      QuotesRStrip(s);
      QuotesLStrip(RStrip(s));
      ScanParity(Strip(s), false);
      OddIsParity(Strip(s));
      var t := Scan(Strip(s), false);
      if t.Some? {
        assert |t.value.rest| < |s|;
        OddIsParity(t.value.rest);
        TokenizeFailsOnOddQuotes(t.value.rest);
      }
    }
  }

  /** Parsing fails exactly on a blank line, an unterminated quote or more than 32 arguments. */
  lemma ParseFailsExactly(line: string)
    ensures ParseCommand(line).None? <==>
      || AllBlank(line)
      || Quotes(line) % 2 == 1
      || (Tokenize(Strip(line)).Some? && |Tokenize(Strip(line)).value| > 32)
  {
    StripsToNothing(line);
    var s := Strip(line);
    QuotesRStrip(line);
    QuotesLStrip(RStrip(line));
    TokenizeFailsOnOddQuotes(s);
    ArgsAreTokens(s, MAX_ARGS);
  }

  // ---------------------------------------------------------------- printing and reading back

  /** Escapes double quotes. */
  function Escape(a: string): string {
    if a == "" then "" else (if a[0] == QUOTE then [BACKSLASH, QUOTE] else [a[0]]) + Escape(a[1..])
  }

  /** The part before the trailing backslashes, and how many of those there are. */
  function Body(a: string): (b: string)
    ensures |b| <= |a|
  {
    if a != "" && a[|a| - 1] == BACKSLASH then Body(a[..|a| - 1]) else a
  }

  function Backslashes(n: nat): string {
    seq(n, _ => BACKSLASH)
  }

  /** A closing quote after a backslash would be escaped, so trailing backslashes follow it. */
  function Quoted(a: string): string {
    [QUOTE] + Escape(Body(a)) + [QUOTE] + Backslashes(|a| - |Body(a)|)
  }

  function Join(args: seq<string>): string {
    if args == [] then ""
    else if |args| == 1 then Quoted(args[0])
    else Quoted(args[0]) + " " + Join(args[1..])
  }

  lemma {:induction false} BodyShape(a: string)
    ensures |Body(a)| <= |a| && a == Body(a) + Backslashes(|a| - |Body(a)|)
    ensures Body(a) != "" ==> Body(a)[|Body(a)| - 1] != BACKSLASH
  {
    if a != "" && a[|a| - 1] == BACKSLASH {
      var n := |a| - 1;
      BodyShape(a[..n]);
      var k := n - |Body(a)|;
      assert Backslashes(k + 1) == Backslashes(k) + [BACKSLASH];
      assert a == a[..n] + [BACKSLASH];
    }
  }

  lemma PrependPrepend(a: string, b: string, t: Option<Token>)
    ensures Prepend(a, Prepend(b, t)) == Prepend(a + b, t)
  {
    if t.Some? {
      assert a + (b + t.value.arg) == a + b + t.value.arg;
    }
  }

  lemma PrependNothing(t: Option<Token>)
    ensures Prepend("", t) == t
  {
    if t.Some? {
      assert "" + t.value.arg == t.value.arg;
    }
  }

  /** How the scanner takes the next character of a text. */
  lemma ScanQuote(s: string, inQuote: bool)
    ensures Scan([QUOTE] + s, inQuote) == Scan(s, !inQuote)
    ensures Scan([BACKSLASH, QUOTE] + s, inQuote) == Prepend([QUOTE], Scan(s, inQuote))
  {
    assert ([QUOTE] + s)[1..] == s;
    assert ([BACKSLASH, QUOTE] + s)[2..] == s;
  }

  lemma ScanPlain(c: char, s: string, inQuote: bool)
    requires c != QUOTE && (c == ' ' ==> inQuote)
    requires c == BACKSLASH ==> s == "" || s[0] != QUOTE
    ensures Scan([c] + s, inQuote) == Prepend([c], Scan(s, inQuote))
  {
    assert ([c] + s)[1..] == s;
  }

  lemma EscapeStart(b: string)
    ensures b != "" ==> Escape(b) != "" && Escape(b)[0] != QUOTE
  {
  }

  /** Inside quotes an escaped body is read back up to the closing quote. */
  lemma {:induction false} ScanBody(b: string, tail: string)
    requires b != "" ==> b[|b| - 1] != BACKSLASH
    ensures Scan(Escape(b) + [QUOTE] + tail, true) == Prepend(b, Scan(tail, false))
    decreases |b|
  {
    var text := Escape(b) + [QUOTE] + tail;
    if b == "" {
      assert text == [QUOTE] + tail;
      ScanQuote(tail, true);
      PrependNothing(Scan(tail, false));
    } else {
      var rest := Escape(b[1..]) + [QUOTE] + tail;
      ScanBody(b[1..], tail);
      PrependPrepend([b[0]], b[1..], Scan(tail, false));
      assert [b[0]] + b[1..] == b;
      if b[0] == QUOTE {
        assert text == [BACKSLASH, QUOTE] + rest;
        ScanQuote(rest, true);
      } else {
        assert text == [b[0]] + rest;
        EscapeStart(b[1..]);
        ScanPlain(b[0], rest, true);
      }
    }
  }

  /** Backslashes that no quote follows are read as they are. */
  lemma {:induction false} ScanBackslashes(n: nat, tail: string)
    requires tail == "" || tail[0] != QUOTE
    ensures Scan(Backslashes(n) + tail, false) == Prepend(Backslashes(n), Scan(tail, false))
    decreases n
  {
    if n == 0 {
      assert Backslashes(0) + tail == tail;
      PrependNothing(Scan(tail, false));
    } else {
      var rest := Backslashes(n - 1) + tail;
      ScanBackslashes(n - 1, tail);
      assert Backslashes(n) + tail == [BACKSLASH] + rest;
      ScanPlain(BACKSLASH, rest, false);
      PrependPrepend([BACKSLASH], Backslashes(n - 1), Scan(tail, false));
      assert [BACKSLASH] + Backslashes(n - 1) == Backslashes(n);
    }
  }

  lemma ScanSeparator(tail: string)
    requires tail == "" || tail[0] == ' '
    ensures Scan(tail, false) == Some(Token("", if tail == "" then "" else tail[1..]))
  {
  }

  lemma QuotedSplit(a: string, tail: string)
    ensures Quoted(a) + tail
      == [QUOTE] + (Escape(Body(a)) + [QUOTE] + (Backslashes(|a| - |Body(a)|) + tail))
  {
  }

  lemma ScanQuoted(a: string, tail: string)
    requires tail == "" || tail[0] == ' '
    ensures Scan(Quoted(a) + tail, false) == Some(Token(a, if tail == "" then "" else tail[1..]))
  {
    var b, n := Body(a), |a| - |Body(a)|;
    var after := Backslashes(n) + tail;
    var inner := Escape(b) + [QUOTE] + after;
    BodyShape(a);
    QuotedSplit(a, tail);
    ScanQuote(inner, false);
    ScanBody(b, after);
    ScanBackslashes(n, tail);
    PrependPrepend(b, Backslashes(n), Scan(tail, false));
    ScanSeparator(tail);
    assert a + "" == a;
  }

  /** A text that neither starts nor ends with white space is left alone by stripping. */
  lemma QuotedEnds(a: string)
    ensures Quoted(a)[0] == QUOTE && !IsSpace(Quoted(a)[|Quoted(a)| - 1])
  {
    BodyShape(a);
  }

  lemma {:induction false} JoinEnds(args: seq<string>)
    requires args != []
    ensures Join(args) != "" && Join(args)[0] == QUOTE && !IsSpace(Join(args)[|Join(args)| - 1])
    ensures Strip(Join(args)) == Join(args)
  {
    QuotedEnds(args[0]);
    if |args| > 1 {
      JoinEnds(args[1..]);
    }
  }

  lemma {:induction false} TokenizeJoin(args: seq<string>)
    ensures Tokenize(Join(args)) == Some(args)
  {
    if args != [] {
      JoinEnds(args);
      var tail := if |args| == 1 then "" else " " + Join(args[1..]);
      assert Join(args) == Quoted(args[0]) + tail;
      ScanQuoted(args[0], tail);
      TokenizeJoin(args[1..]);
      assert args == [args[0]] + args[1..];
    }
  }

  /** Every list of 1 to 32 arguments printed this way is read back exactly. */
  lemma RoundTrip(args: seq<string>)
    requires 1 <= |args| <= 32
    ensures ParseCommand(Join(args)) == Some(args)
  {
    JoinEnds(args);
    TokenizeJoin(args);
    ArgsAreTokens(Join(args), MAX_ARGS);
  }

  // ---------------------------------------------------------------- any white space in between

  /** Needs no quotes: no white space, quote or backslash in it. */
  predicate Plain(a: string) {
    a != "" && forall i :: 0 <= i < |a| ==> !Blank(a[i]) && a[i] != QUOTE && a[i] != BACKSLASH
  }

  /** How an argument may be written. */
  predicate Writes(word: string, arg: string) {
    word == Quoted(arg) || (word == arg && Plain(arg))
  }

  /** A quoted argument in front of anything but another quote. */
  lemma ScanQuotedThen(a: string, tail: string)
    requires tail == "" || tail[0] != QUOTE
    ensures Scan(Quoted(a) + tail, false) == Prepend(a, Scan(tail, false))
  {
    var b, n := Body(a), |a| - |Body(a)|;
    var after := Backslashes(n) + tail;
    BodyShape(a);
    QuotedSplit(a, tail);
    ScanQuote(Escape(b) + [QUOTE] + after, false);
    ScanBody(b, after);
    ScanBackslashes(n, tail);
    PrependPrepend(b, Backslashes(n), Scan(tail, false));
  }

  lemma {:induction false} ScanPlainThen(a: string, tail: string)
    requires forall i :: 0 <= i < |a| ==> !Blank(a[i]) && a[i] != QUOTE && a[i] != BACKSLASH
    ensures Scan(a + tail, false) == Prepend(a, Scan(tail, false))
  {
    if a == "" {
      assert a + tail == tail;
      PrependNothing(Scan(tail, false));
    } else {
      var rest := a[1..] + tail;
      assert a + tail == [a[0]] + rest;
      ScanPlainThen(a[1..], tail);
      ScanPlain(a[0], rest, false);
      PrependPrepend([a[0]], a[1..], Scan(tail, false));
      assert [a[0]] + a[1..] == a;
    }
  }

  lemma ScanWord(word: string, a: string, tail: string)
    requires Writes(word, a) && (tail == "" || Blank(tail[0]))
    ensures Scan(word + tail, false) == Prepend(a, Scan(tail, false))
  {
    if word == Quoted(a) {
      ScanQuotedThen(a, tail);
    } else {
      ScanPlainThen(a, tail);
    }
  }

  /** White space other than a space does not end an argument. */
  lemma ScanOtherBlank(tail: string)
    requires tail != "" && Blank(tail[0]) && tail[0] != ' '
    ensures Scan(tail, false) == Prepend([tail[0]], Scan(tail[1..], false))
  {
  }

  lemma WordTrimmed(word: string, a: string)
    requires Writes(word, a)
    ensures word != "" && !Blank(word[0]) && !Blank(word[|word| - 1])
  {
    if word == Quoted(a) {
      QuotedEnds(a);
      BlankIsSpace(word[|word| - 1]);
    }
  }

  /** Words with white space between them. */
  function Line(words: seq<string>, seps: seq<string>): string
    requires |words| == |seps| + 1
  {
    if seps == [] then words[0] else words[0] + (seps[0] + Line(words[1..], seps[1..]))
  }

  predicate AllWrite(words: seq<string>, args: seq<string>) {
    |words| == |args| && forall i :: 0 <= i < |words| ==> Writes(words[i], args[i])
  }

  predicate Separators(seps: seq<string>) {
    forall i :: 0 <= i < |seps| ==> seps[i] != "" && AllBlank(seps[i])
  }

  predicate SpacesFirst(seps: seq<string>) {
    forall i :: 0 <= i < |seps| ==> seps[i] != "" && seps[i][0] == ' '
  }

  lemma {:induction false} LineTrimmed(words: seq<string>, args: seq<string>, seps: seq<string>)
    requires AllWrite(words, args) && |words| == |seps| + 1
    ensures Line(words, seps) != "" && Trimmed(Line(words, seps))
    decreases |seps|
  {
    WordTrimmed(words[0], args[0]);
    if seps != [] {
      LineTrimmed(words[1..], args[1..], seps[1..]);
    }
  }

  lemma BlankInFront(blank: string, text: string)
    requires AllBlank(blank) && text != "" && Trimmed(text)
    ensures Tokenize(blank + text) == Tokenize(text)
  {
    StripExactly(blank, text, "");
    assert blank + text + "" == blank + text;
    StripExactly("", text, "");
    assert "" + text + "" == text;
  }

  lemma TokenizeWord(word: string, a: string)
    requires Writes(word, a)
    ensures Tokenize(word) == Some([a])
  {
    WordTrimmed(word, a);
    StripExactly("", word, "");
    assert "" + word + "" == word && word + "" == word && a + "" == a;
    ScanWord(word, a, "");
    assert Tokenize("") == Some([]);
    assert [a] + [] == [a];
  }

  lemma {:induction false} TokenizeLine(words: seq<string>, args: seq<string>, seps: seq<string>)
    requires AllWrite(words, args) && |words| == |seps| + 1 && Separators(seps)
    ensures Tokenize(Line(words, seps)) == Some(args) <==> SpacesFirst(seps)
    decreases |seps|
  {
    var line := Line(words, seps);
    LineTrimmed(words, args, seps);
    StripExactly("", line, "");
    assert "" + line + "" == line;
    if seps == [] {
      assert words[0] + "" == words[0];
      TokenizeWord(words[0], args[0]);
      assert args == [args[0]];
    } else {
      TokenizeFirst(words, args, seps);
      TokenizeLine(words[1..], args[1..], seps[1..]);
      assert args == [args[0]] + args[1..];
      SpaceThenRest(seps);
    }
  }

  lemma SpaceThenRest(seps: seq<string>)
    requires seps != [] && seps[0] != ""
    ensures SpacesFirst(seps) <==> seps[0][0] == ' ' && SpacesFirst(seps[1..])
  {
    assert forall i :: 0 < i < |seps| ==> seps[i] == seps[1..][i - 1];
  }

  /** The first argument is read back, and the rest of the line left, exactly if a space follows it. */
  lemma TokenizeFirst(words: seq<string>, args: seq<string>, seps: seq<string>)
    requires AllWrite(words, args) && |words| == |seps| + 1 && Separators(seps) && seps != []
    requires Strip(Line(words, seps)) == Line(words, seps) != ""
    ensures var after := Tokenize(Line(words[1..], seps[1..]));
      var all := Tokenize(Line(words, seps));
      if seps[0][0] == ' ' then all == if after.None? then None else Some([args[0]] + after.value)
      else all.None? || (all.value != [] && all.value[0] != args[0])
  {
    var next := Line(words[1..], seps[1..]);
    var tail := seps[0] + next;
    ScanWord(words[0], args[0], tail);
    if seps[0][0] == ' ' {
      ScanSeparator(tail);
      assert tail[1..] == seps[0][1..] + next;
      LineTrimmed(words[1..], args[1..], seps[1..]);
      BlankInFront(seps[0][1..], next);
      assert args[0] + "" == args[0];
    } else {
      ScanOtherBlank(tail);
      PrependPrepend(args[0], [tail[0]], Scan(tail[1..], false));
    }
  }

  /**
   Any 1 to 32 arguments, each written with quotes or, if it needs none, without, with any white space
   around the line: they are read back exactly if and only if the white space after each argument but
   the last starts with a space. Other white space becomes part of the argument.
   */
  lemma ReadsBackExactly(args: seq<string>, words: seq<string>, seps: seq<string>, l: string, r: string)
    requires 1 <= |args| <= 32 && AllWrite(words, args)
    requires |words| == |seps| + 1 && Separators(seps) && AllBlank(l) && AllBlank(r)
    ensures ParseCommand(l + Line(words, seps) + r) == Some(args) <==> SpacesFirst(seps)
  {
    LineTrimmed(words, args, seps);
    StripExactly(l, Line(words, seps), r);
    TokenizeLine(words, args, seps);
    ArgsAreTokens(Line(words, seps), MAX_ARGS);
  }

  lemma ScanKeeps(a: string, c: char, rest: string)
    requires Plain(a) && Blank(c) && c != ' '
    ensures Scan(a + ([c] + (" " + rest)), false) == Some(Token(a + [c], rest))
  {
    ScanPlainThen(a, [c] + (" " + rest));
    ScanPlain(c, " " + rest, false);
    ScanSeparator(" " + rest);
    assert (" " + rest)[1..] == rest;
    assert [c] + "" == [c];
  }

  /** A tab, or other white space, in front of the space is read as part of the argument. */
  lemma OtherBlankIsKept(a: string, c: char, b: string)
    requires Plain(a) && Plain(b) && Blank(c) && c != ' '
    ensures ParseCommand(a + ([c] + (" " + b))) == Some([a + [c], b])
  {
    var line := a + ([c] + (" " + b));
    StripExactly("", line, "");
    assert "" + line + "" == line;
    ScanKeeps(a, c, b);
    TokenizeWord(b, b);
    ArgsAreTokens(line, MAX_ARGS);
    assert [a + [c]] + [b] == [a + [c], b];
  }
}
