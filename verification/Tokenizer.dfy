/** What the tokenizer is meant to compute, written by recursion on the text, and exactly where the table-driven loop
    of lab1/lib/parse_command.c differs from it. */
module Tokenizer {
  import opened ParseCommand

  /** A word and the text after it; the text after it is empty or begins with the blank that ended the word. */
  datatype Split = Split(word: string, rest: string) {
    function Prepend(c: char): (r: Split) { Split([c] + word, rest) }
  }

  function SkipBlanks(s: string): (r: string)
    ensures |r| <= |s|
    decreases |s|
  {
    if s != [] && IsBlank(s[0]) then SkipBlanks(s[1..]) else s
  }

  /** Reads one word: blanks end it, quotes enter and leave a quoted part, a backslash takes the next character
      as it is. A word that is still open at the end of the text ends there. */
  function Word(s: string): (r: Split)
    ensures |r.rest| <= |s|
    decreases |s|
  {
    if s == [] || IsBlank(s[0]) then Split("", s)
    else if s[0] == '\"' then QuotedPart(s[1..])
    else if s[0] != '\\' then Word(s[1..]).Prepend(s[0])
    else if |s| == 1 then Split("", [])
    else Word(s[2..]).Prepend(s[1])
  }

  function QuotedPart(s: string): (r: Split)
    ensures |r.rest| <= |s|
    decreases |s|
  {
    if s == [] then Split("", [])
    else if s[0] == '\"' then Word(s[1..])
    else if s[0] != '\\' then QuotedPart(s[1..]).Prepend(s[0])
    else if |s| == 1 then Split("", [])
    else QuotedPart(s[2..]).Prepend(s[1])
  }

  /** Reads the rest of a word, inside or outside of quotes. */
  function Part(s: string, quoted: bool): (r: Split) {
    if quoted then QuotedPart(s) else Word(s)
  }

  lemma WordConsumes(s: string)
    requires s != [] && !IsBlank(s[0])
    ensures |Word(s).rest| < |s|
  {
  }

  /** The words of the text in order: the intended result. */
  function Tokens(s: string): (r: seq<string>)
    decreases |s|
  {
    var t := SkipBlanks(s);
    if t == [] then []
    else
      SkippedStart(s);
      WordConsumes(t);
      [Word(t).word] + Tokens(Word(t).rest)
  }

  /** How many blanks follow the last word. */
  function TrailingBlanks(s: string): (r: nat)
    decreases |s|
  {
    var t := SkipBlanks(s);
    if t == [] then |s|
    else
      SkippedStart(s);
      WordConsumes(t);
      TrailingBlanks(Word(t).rest)
  }

  lemma {:induction false} SkippedStart(s: string)
    ensures SkipBlanks(s) != [] ==> !IsBlank(SkipBlanks(s)[0])
    decreases |s|
  {
    if s != [] && IsBlank(s[0]) {
      SkippedStart(s[1..]);
    }
  }

  lemma {:induction false} WordEndsAtBlank(s: string, quoted: bool)
    ensures var r := Part(s, quoted).rest; r == [] || IsBlank(r[0])
    decreases |s|
  {
    if s != [] && (quoted || !IsBlank(s[0])) {
      if s[0] == '\"' {
        WordEndsAtBlank(s[1..], !quoted);
      } else if s[0] != '\\' {
        WordEndsAtBlank(s[1..], quoted);
      } else if |s| > 1 {
        WordEndsAtBlank(s[2..], quoted);
      }
    }
  }

  // ---------------------------------------------------------------------------------------------
  // The table follows the recursion

  /** What the program makes of the words: the last one is repeated after two or more blanks, unless it is empty; an
      empty last word that reaches the end of the text is dropped. */
  function AsWritten(tokens: seq<string>, blanks: nat): (r: seq<string>) {
    if tokens == [] then []
    else
      var last := tokens[|tokens| - 1];
      if blanks == 0 && last == "" then tokens[..|tokens| - 1]
      else if blanks >= 2 && last != "" then tokens + [last]
      else tokens
  }

  /** The result when a word is open with the text `argument` and `rest` is what follows the word. */
  function AfterWord(arguments: seq<string>, argument: string, rest: string): (r: seq<string>) {
    if rest == [] then (if argument == "" then arguments else arguments + [argument])
    else Finish(Run(Machine(LookForArg, argument, CloseArg, arguments + [argument]), rest[1..]))
  }

  /** In the middle of a word, the table reads exactly the rest of the word. */
  lemma {:induction false} ReadsWord(m: Machine, s: string)
    requires m.state == InArg || m.state == InQuote
    requires m.lastAction != CloseArg
    ensures var split := Part(s, m.state == InQuote);
            Finish(Run(m, s)) == AfterWord(m.arguments, m.argument + split.word, split.rest)
    decreases |s|
  {
    if s == [] {
      assert m.argument + "" == m.argument;
    } else if m.state == InArg && IsBlank(s[0]) {
      assert m.argument + "" == m.argument;
    } else {
      var next := Feed(m, s[0]);
      if s[0] == '\"' {
        ReadsWord(next, s[1..]);
      } else if s[0] != '\\' {
        ReadsWord(next, s[1..]);
        JoinOne(m.argument, s[0], Part(s[1..], m.state == InQuote).word);
      } else if |s| == 1 {
        assert m.argument + "" == m.argument;
      } else {
        var afterEscape := Feed(next, s[1]);
        assert s[1..][0] == s[1] && s[1..][1..] == s[2..];
        assert Run(m, s) == Run(next, s[1..]) == Run(afterEscape, s[2..]);
        ReadsWord(afterEscape, s[2..]);
        JoinOne(m.argument, s[1], Part(s[2..], m.state == InQuote).word);
      }
    }
  }

  lemma JoinOne(a: string, c: char, b: string)
    ensures (a + [c]) + b == a + ([c] + b)
  {
  }

  lemma OpensEscaped(m: Machine, s: string)
    requires m.state == LookForArg && s != [] && s[0] == '\\'
    ensures Finish(Run(m, s)) == AfterWord(m.arguments, Word(s).word, Word(s).rest)
  {
    var begun := Machine(EscapedInArg, "", CreateArg, m.arguments);
    assert Feed(m, s[0]) == begun;
    if |s| > 1 {
      var inArg := Machine(InArg, [s[1]], AddToArg, m.arguments);
      assert Feed(begun, s[1]) == inArg;
      assert s[1..][0] == s[1] && s[1..][1..] == s[2..];
      assert Run(m, s) == Run(begun, s[1..]) == Run(inArg, s[2..]);
      ReadsWord(inArg, s[2..]);
      assert inArg.argument + Word(s[2..]).word == Word(s).word;
    } else {
      assert s[1..] == [];
      assert Run(m, s) == begun;
    }
  }

  lemma OpensWord(m: Machine, s: string)
    requires m.state == LookForArg && s != [] && !IsBlank(s[0])
    ensures Finish(Run(m, s)) == AfterWord(m.arguments, Word(s).word, Word(s).rest)
  {
    if s[0] == '\\' {
      OpensEscaped(m, s);
    } else if s[0] == '\"' {
      var begun := Machine(InQuote, "", CreateArg, m.arguments);
      assert Feed(m, s[0]) == begun;
      ReadsWord(begun, s[1..]);
      assert begun.argument + QuotedPart(s[1..]).word == Word(s).word;
    } else {
      var begun := Machine(InArg, [s[0]], CreateAndAddToArg, m.arguments);
      assert Feed(m, s[0]) == begun;
      ReadsWord(begun, s[1..]);
      assert begun.argument + Word(s[1..]).word == Word(s).word;
    }
  }

  lemma BlankFirst(s: string)
    requires s != [] && IsBlank(s[0])
    ensures Tokens(s) == Tokens(s[1..])
    ensures TrailingBlanks(s) == if Tokens(s) == [] then |s| else TrailingBlanks(s[1..])
  {
    assert SkipBlanks(s) == SkipBlanks(s[1..]);
  }

  /** The first word of a text that begins with one. */
  lemma FirstWord(s: string, word: string, rest: string)
    requires s != [] && !IsBlank(s[0]) && Word(s) == Split(word, rest)
    ensures Tokens(s) == [word] + Tokens(rest) && TrailingBlanks(s) == TrailingBlanks(rest)
  {
    assert SkipBlanks(s) == s;
  }

  lemma AsWrittenCons(word: string, tokens: seq<string>, blanks: nat)
    requires tokens != []
    ensures AsWritten([word] + tokens, blanks) == [word] + AsWritten(tokens, blanks)
  {
    var all := [word] + tokens;
    assert all[|all| - 1] == tokens[|tokens| - 1];
    assert all[..|all| - 1] == [word] + tokens[..|tokens| - 1];
  }

  /** What is left to add between words, with `left` characters to come; `m.argument` is the word read last, which the
      end of the text may add once more. */
  function Remaining(m: Machine, tokens: seq<string>, blanks: nat, left: nat): (r: seq<string>) {
    if tokens != [] then AsWritten(tokens, blanks)
    else if (left > 0 || m.lastAction != CloseArg) && m.argument != "" then [m.argument]
    else []
  }

  lemma WordThenRemaining(arguments: seq<string>, word: string, tokens: seq<string>, blanks: nat, left: nat)
    ensures (arguments + [word])
              + Remaining(Machine(LookForArg, word, CloseArg, arguments + [word]), tokens, blanks, left)
         == arguments + AsWritten([word] + tokens, if tokens == [] then left + 1 else blanks)
  {
    if tokens == [] {
      assert [word] + tokens == [word];
    } else {
      AsWrittenCons(word, tokens, blanks);
    }
  }

  lemma {:induction false} ReadsTokens(m: Machine, s: string)
    requires m.state == LookForArg
    ensures Finish(Run(m, s)) == m.arguments + Remaining(m, Tokens(s), TrailingBlanks(s), |s|)
    decreases |s|
  {
    if s == [] {
    } else if IsBlank(s[0]) {
      BlankFirst(s);
      ReadsTokens(Feed(m, s[0]), s[1..]);
    } else {
      var word, rest := Word(s).word, Word(s).rest;
      OpensWord(m, s);
      WordConsumes(s);
      WordEndsAtBlank(s, false);
      FirstWord(s, word, rest);
      if rest == [] {
        LastWord(m, word);
      } else {
        ReadsTokens(Machine(LookForArg, word, CloseArg, m.arguments + [word]), rest[1..]);
        BlankFirst(rest);
        WordThenRemaining(m.arguments, word, Tokens(rest[1..]), TrailingBlanks(rest[1..]), |rest[1..]|);
      }
    }
  }

  lemma LastWord(m: Machine, word: string)
    ensures AfterWord(m.arguments, word, []) == m.arguments + Remaining(m, [word] + Tokens([]), TrailingBlanks([]), 1)
  {
    assert Tokens([]) == [] && [word] + [] == [word] && [word][..0] == [];
  }

  /** For every text, the program computes the intended words except for the two mistakes in `AsWritten`. */
  lemma ParsedIsAsWritten(s: string)
    ensures Parsed(s) == AsWritten(Tokens(s), TrailingBlanks(s))
  {
    ReadsTokens(Start(Ignore), s);
  }

  /** Exactly when the program is right. */
  lemma ParsesAsIntendedIff(s: string)
    ensures Parsed(s) == Tokens(s)
       <==> (Tokens(s) == []
             || (var last := Tokens(s)[|Tokens(s)| - 1];
                 if last == "" then TrailingBlanks(s) != 0 else TrailingBlanks(s) < 2))
  {
    ParsedIsAsWritten(s);
  }

  // ---------------------------------------------------------------------------------------------
  // Which lines fit into the buffers

  ghost predicate AllShorter(tokens: seq<string>, size: nat) {
    forall k :: 0 <= k < |tokens| ==> |tokens[k]| < size
  }

  ghost predicate FitsAfterWord(arguments: seq<string>, argument: string, rest: string, size: nat) {
    |argument| < size
    && (rest != [] ==> Fits(Machine(LookForArg, argument, CloseArg, arguments + [argument]), rest[1..], size))
  }

  lemma {:induction false} FitsWord(m: Machine, s: string, size: nat)
    requires m.state == InArg || m.state == InQuote
    ensures var split := Part(s, m.state == InQuote);
            Fits(m, s, size) <==> FitsAfterWord(m.arguments, m.argument + split.word, split.rest, size)
    decreases |s|
  {
    if s == [] || (m.state == InArg && IsBlank(s[0])) {
      assert m.argument + "" == m.argument;
    } else {
      var next, quoted := Feed(m, s[0]), m.state == InQuote;
      if s[0] == '\"' {
        FitsWord(next, s[1..], size);
      } else if s[0] != '\\' {
        FitsWord(next, s[1..], size);
        JoinOne(m.argument, s[0], Part(s[1..], quoted).word);
      } else if |s| == 1 {
        assert m.argument + "" == m.argument;
      } else {
        assert s[1..][0] == s[1] && s[1..][1..] == s[2..];
        FitsWord(Feed(next, s[1]), s[2..], size);
        JoinOne(m.argument, s[1], Part(s[2..], quoted).word);
      }
    }
  }

  lemma FitsEscaped(m: Machine, s: string, size: nat)
    requires m.state == LookForArg && s != [] && s[0] == '\\' && |m.argument| < size
    ensures Fits(m, s, size) <==> FitsAfterWord(m.arguments, Word(s).word, Word(s).rest, size)
  {
    var begun := Machine(EscapedInArg, "", CreateArg, m.arguments);
    assert Feed(m, s[0]) == begun;
    if |s| > 1 {
      var inArg := Machine(InArg, [s[1]], AddToArg, m.arguments);
      assert Feed(begun, s[1]) == inArg;
      assert s[1..][0] == s[1] && s[1..][1..] == s[2..];
      FitsWord(inArg, s[2..], size);
      assert inArg.argument + Word(s[2..]).word == Word(s).word;
    } else {
      assert s[1..] == [];
    }
  }

  lemma FitsFirstWord(m: Machine, s: string, size: nat)
    requires m.state == LookForArg && s != [] && !IsBlank(s[0]) && |m.argument| < size
    ensures Fits(m, s, size) <==> FitsAfterWord(m.arguments, Word(s).word, Word(s).rest, size)
  {
    if s[0] == '\\' {
      FitsEscaped(m, s, size);
    } else {
      var next := Feed(m, s[0]);
      FitsWord(next, s[1..], size);
      assert next.argument + Part(s[1..], next.state == InQuote).word == Word(s).word;
    }
  }

  lemma {:induction false} FitsTokens(m: Machine, s: string, size: nat)
    requires m.state == LookForArg && |m.argument| < size
    ensures Fits(m, s, size) <==> AllShorter(Tokens(s), size)
    decreases |s|
  {
    if s == [] {
    } else if IsBlank(s[0]) {
      BlankFirst(s);
      FitsTokens(Feed(m, s[0]), s[1..], size);
    } else {
      var word, rest := Word(s).word, Word(s).rest;
      FitsFirstWord(m, s, size);
      WordConsumes(s);
      WordEndsAtBlank(s, false);
      assert SkipBlanks(s) == s;
      assert Tokens(s) == [word] + Tokens(rest);
      FirstShorter(word, Tokens(rest), size);
      if rest != [] && |word| < size {
        BlankFirst(rest);
        FitsTokens(Machine(LookForArg, word, CloseArg, m.arguments + [word]), rest[1..], size);
      }
    }
  }

  lemma FirstShorter(word: string, tokens: seq<string>, size: nat)
    ensures AllShorter([word] + tokens, size) <==> |word| < size && AllShorter(tokens, size)
  {
    if AllShorter([word] + tokens, size) {
      assert ([word] + tokens)[0] == word;
      forall k | 0 <= k < |tokens| ensures |tokens[k]| < size {
        assert ([word] + tokens)[k + 1] == tokens[k];
      }
    }
  }

  /** The buffers never overflow, whatever `effect` held, if and only if every word is shorter than a buffer. */
  lemma FitsIff(command: string, garbage: Action, size: nat)
    requires size > 0
    ensures Fits(Start(garbage), command, size) <==> AllShorter(Tokens(command), size)
  {
    FitsTokens(Start(garbage), command, size);
  }

  /** The buffers of the program, of 4096 characters with the NUL, suffice exactly for words of up to 4095. */
  lemma SufficesIff(command: string, garbage: Action)
    ensures Fits(Start(garbage), command, ARGUMENT_SIZE)
       <==> forall k :: 0 <= k < |Tokens(command)| ==> |Tokens(command)[k]| <= 4095
  {
    FitsIff(command, garbage, ARGUMENT_SIZE);
    if AllShorter(Tokens(command), ARGUMENT_SIZE) {
      forall k | 0 <= k < |Tokens(command)| ensures |Tokens(command)[k]| <= 4095 {
        assert |Tokens(command)[k]| < ARGUMENT_SIZE;
      }
    }
  }

  // ---------------------------------------------------------------------------------------------
  // Round trip

  ghost predicate Blanks(gap: string) {
    forall k :: 0 <= k < |gap| ==> gap[k] in " \t\n"
  }

  lemma {:induction false} SkipsAllBlanks(s: string)
    ensures SkipBlanks(s) == [] <==> Blanks(s)
    decreases |s|
  {
    if s != [] {
      SkipsAllBlanks(s[1..]);
    }
  }

  /** Every character behind a backslash. */
  function Escaped(argument: string): (r: string) {
    if argument == "" then "" else ['\\', argument[0]] + Escaped(argument[1..])
  }

  /** One argument as a user may write it: escaped, and with or without quotes around it. */
  function Written(argument: string, quotes: bool): (r: string) {
    if quotes then ['\"'] + Escaped(argument) + ['\"'] else Escaped(argument)
  }

  /** The arguments in order, with single spaces between them. */
  function Line(arguments: seq<string>, quotes: bool): (r: string) {
    if arguments == [] then ""
    else Written(arguments[0], quotes) + (if |arguments| == 1 then "" else [' '] + Line(arguments[1..], quotes))
  }

  lemma EscapedCharacter(s: string, c: char, t: string, quoted: bool)
    requires s == ['\\', c] + t
    ensures Part(s, quoted) == Part(t, quoted).Prepend(c)
  {
    assert s[2..] == t;
  }

  /** A word and what it is followed by. */
  predicate Precedes(argument: string, after: Split, whole: Split) {
    whole == Split(argument + after.word, after.rest)
  }

  lemma PrecedesOneMore(argument: string, after: Split, whole: Split)
    requires argument != "" && Precedes(argument[1..], after, whole)
    ensures Precedes(argument, after, whole.Prepend(argument[0]))
  {
    assert [argument[0]] + (argument[1..] + after.word) == argument + after.word;
  }

  lemma {:induction false} WordOfEscaped(argument: string, quoted: bool, rest: string, s: string)
    requires s == Escaped(argument) + rest
    ensures Precedes(argument, Part(rest, quoted), Part(s, quoted))
    decreases |argument|
  {
    if argument == "" {
      assert s == rest;
    } else {
      var tail := Escaped(argument[1..]) + rest;
      WordOfEscaped(argument[1..], quoted, rest, tail);
      EscapedCharacter(s, argument[0], tail, quoted);
      PrecedesOneMore(argument, Part(rest, quoted), Part(tail, quoted));
    }
  }

  lemma WordStops(rest: string)
    requires rest == [] || IsBlank(rest[0])
    ensures Word(rest) == Split("", rest)
    ensures QuotedPart(['\"'] + rest) == Split("", rest)
  {
    assert (['\"'] + rest)[1..] == rest;
  }

  lemma PrecedesNothing(argument: string, rest: string, whole: Split)
    requires Precedes(argument, Split("", rest), whole)
    ensures whole == Split(argument, rest)
  {
    assert argument + "" == argument;
  }

  lemma WordOfQuoted(argument: string, rest: string, s: string)
    requires rest == [] || IsBlank(rest[0])
    requires s != [] && s[0] == '\"' && s[1..] == Escaped(argument) + (['\"'] + rest)
    ensures Word(s) == Split(argument, rest)
  {
    WordOfEscaped(argument, true, ['\"'] + rest, s[1..]);
    WordStops(rest);
    PrecedesNothing(argument, rest, QuotedPart(s[1..]));
  }

  lemma WordOfWritten(argument: string, quotes: bool, rest: string, s: string)
    requires rest == [] || IsBlank(rest[0])
    requires s == Written(argument, quotes) + rest
    ensures Word(s) == Split(argument, rest)
  {
    if quotes {
      assert s[1..] == Escaped(argument) + (['\"'] + rest);
      WordOfQuoted(argument, rest, s);
    } else {
      WordOfEscaped(argument, false, rest, s);
      WordStops(rest);
      PrecedesNothing(argument, rest, Word(s));
    }
  }

  lemma WrittenStart(argument: string, quotes: bool)
    requires quotes || argument != ""
    ensures Written(argument, quotes) != [] && !IsBlank(Written(argument, quotes)[0])
  {
  }

  /** `end` is either nothing or blanks only. */
  lemma {:induction false} TokensOfLine(arguments: seq<string>, quotes: bool, end: string)
    requires arguments != []
    requires quotes || forall k :: 0 <= k < |arguments| ==> arguments[k] != ""
    requires SkipBlanks(end) == []
    ensures Tokens(Line(arguments, quotes) + end) == arguments
    ensures TrailingBlanks(Line(arguments, quotes) + end) == |end|
    decreases |arguments|
  {
    var first := Written(arguments[0], quotes);
    var rest := if |arguments| == 1 then end else [' '] + (Line(arguments[1..], quotes) + end);
    var s := Line(arguments, quotes) + end;
    assert s == first + rest;
    WrittenStart(arguments[0], quotes);
    assert s[0] == first[0];
    WordOfWritten(arguments[0], quotes, rest, s);
    FirstWord(s, arguments[0], rest);
    if |arguments| > 1 {
      TokensOfLine(arguments[1..], quotes, end);
      assert rest[1..] == Line(arguments[1..], quotes) + end;
      BlankFirst(rest);
      assert arguments == [arguments[0]] + arguments[1..];
    } else {
      assert arguments == [arguments[0]];
    }
  }

  /** Escaped arguments, quoted if some are empty, come back exactly if and only if the line ends rightly: a last
      argument that is not empty tolerates at most one blank after it, an empty one needs at least one. */
  lemma RoundTripIff(arguments: seq<string>, quotes: bool, end: string)
    requires arguments != []
    requires quotes || forall k :: 0 <= k < |arguments| ==> arguments[k] != ""
    requires Blanks(end)
    ensures Parsed(Line(arguments, quotes) + end) == arguments
       <==> (if arguments[|arguments| - 1] == "" then |end| > 0 else |end| < 2)
  {
    SkipsAllBlanks(end);
    TokensOfLine(arguments, quotes, end);
    ParsesAsIntendedIff(Line(arguments, quotes) + end);
  }

  /** Without blanks at the end, every list of arguments that are not empty comes back. */
  lemma RoundTrip(arguments: seq<string>)
    requires forall k :: 0 <= k < |arguments| ==> arguments[k] != ""
    ensures Parsed(Line(arguments, false)) == arguments
  {
    if arguments != [] {
      RoundTripIff(arguments, false, "");
      assert Line(arguments, false) + "" == Line(arguments, false);
    }
  }

  /** The two mistakes, on every list of arguments: two blanks at the end repeat the last argument, and an empty
      argument at the very end is lost. */
  lemma Mistakes(arguments: seq<string>, end: string)
    requires arguments != [] && Blanks(end)
    ensures var last := arguments[|arguments| - 1];
            && (last != "" && |end| >= 2 ==> Parsed(Line(arguments, true) + end) == arguments + [last])
            && (last == "" && end == "" ==> Parsed(Line(arguments, true) + end) == arguments[..|arguments| - 1])
  {
    SkipsAllBlanks(end);
    TokensOfLine(arguments, true, end);
    ParsedIsAsWritten(Line(arguments, true) + end);
  }

  // ---------------------------------------------------------------------------------------------
  // Lines as users type them: words as they are, in quotes or not, with any blanks between them

  /** A word, whether quotes stand around it, and the blanks after it. */
  datatype Item = Item(text: string, quotes: bool, gap: string) {
    function Typed(): (r: string) { if quotes then ['\"'] + text + ['\"'] else text }

    /** Without quotes, a word is not empty and has no blank, tab, newline, quote or backslash in it; in quotes, no
        quote and no backslash. */
    ghost predicate Verbatim() {
      && (quotes || text != "")
      && forall k :: 0 <= k < |text| ==> text[k] !in "\"\\" && (quotes || text[k] !in " \t\n")
    }
  }

  function TypedLine(items: seq<Item>): (r: string) {
    if items == [] then "" else items[0].Typed() + (items[0].gap + TypedLine(items[1..]))
  }

  function Texts(items: seq<Item>): (r: seq<string>)
    ensures |r| == |items| && forall k :: 0 <= k < |r| ==> r[k] == items[k].text
  {
    seq(|items|, k requires 0 <= k < |items| => items[k].text)
  }

  /** All words can be taken as they are, and there are blanks between them. */
  ghost predicate Typable(items: seq<Item>) {
    && (forall i :: 0 <= i < |items| ==> items[i].Verbatim() && Blanks(items[i].gap))
    && (forall i :: 0 <= i < |items| - 1 ==> items[i].gap != "")
  }

  lemma {:induction false} VerbatimPart(text: string, quoted: bool, rest: string, s: string)
    requires s == text + rest
    requires forall k :: 0 <= k < |text| ==> text[k] !in "\"\\" && (quoted || text[k] !in " \t\n")
    ensures Precedes(text, Part(rest, quoted), Part(s, quoted))
    decreases |text|
  {
    if text == "" {
      assert s == rest;
    } else {
      assert s[0] == text[0] && s[1..] == text[1..] + rest;
      assert text[0] !in "\"\\" && (quoted || text[0] !in " \t\n");
      VerbatimPart(text[1..], quoted, rest, s[1..]);
      PrecedesOneMore(text, Part(rest, quoted), Part(s[1..], quoted));
    }
  }

  lemma ItemIsWord(item: Item, rest: string, s: string)
    requires item.Verbatim() && s == item.Typed() + rest
    requires rest == [] || rest[0] in " \t\n"
    ensures Word(s) == Split(item.text, rest) && s != [] && !IsBlank(s[0])
  {
    WordStops(rest);
    if item.quotes {
      assert s[0] == '\"' && s[1..] == item.text + (['\"'] + rest);
      VerbatimPart(item.text, true, ['\"'] + rest, s[1..]);
      PrecedesNothing(item.text, rest, QuotedPart(s[1..]));
    } else {
      assert s[0] == item.text[0];
      VerbatimPart(item.text, false, rest, s);
      PrecedesNothing(item.text, rest, Word(s));
    }
  }

  lemma {:induction false} SkipsGap(gap: string, s: string)
    requires Blanks(gap)
    ensures Tokens(gap + s) == Tokens(s)
    ensures TrailingBlanks(gap + s) == if Tokens(s) == [] then |gap + s| else TrailingBlanks(s)
    decreases |gap|
  {
    if gap == "" {
      assert gap + s == s;
      BlanksOnly(s);
    } else {
      assert gap[0] in " \t\n";
      assert (gap + s)[0] == gap[0] && (gap + s)[1..] == gap[1..] + s;
      SkipsGap(gap[1..], s);
      BlankFirst(gap + s);
    }
  }

  lemma BlanksOnly(s: string)
    ensures Tokens(s) == [] ==> TrailingBlanks(s) == |s|
  {
  }

  lemma FirstItem(item: Item, more: string, s: string)
    requires item.Verbatim() && Blanks(item.gap) && s == item.Typed() + (item.gap + more)
    requires item.gap != "" || more == ""
    ensures Tokens(s) == [item.text] + Tokens(more)
    ensures TrailingBlanks(s) == if Tokens(more) == [] then |item.gap + more| else TrailingBlanks(more)
  {
    var rest := item.gap + more;
    if rest != [] {
      assert rest[0] == item.gap[0];
    }
    ItemIsWord(item, rest, s);
    FirstWord(s, item.text, rest);
    SkipsGap(item.gap, more);
  }

  lemma MoreItems(items: seq<Item>)
    requires Typable(items) && |items| > 1
    ensures Typable(items[1..]) && items[1..] != [] && items[0].gap != ""
    ensures items[1..][|items| - 2] == items[|items| - 1]
    ensures Texts(items) == [items[0].text] + Texts(items[1..])
  {
  }

  lemma LastItem(items: seq<Item>)
    requires |items| == 1
    ensures items[1..] == [] && TypedLine(items[1..]) == "" && Texts(items) == [items[0].text]
  {
  }

  lemma {:induction false} TokensOfItems(items: seq<Item>)
    requires Typable(items) && items != []
    ensures Tokens(TypedLine(items)) == Texts(items)
    ensures TrailingBlanks(TypedLine(items)) == |items[|items| - 1].gap|
    decreases |items|
  {
    var more := TypedLine(items[1..]);
    if |items| > 1 {
      MoreItems(items);
      TokensOfItems(items[1..]);
      FirstItem(items[0], more, TypedLine(items));
    } else {
      LastItem(items);
      FirstItem(items[0], more, TypedLine(items));
    }
  }

  /** What comes of a line as it is typed: exactly its words, except that two or more blanks after the last word repeat
      it, unless it is empty, and that an empty word at the very end is lost. */
  lemma TypedRoundTrip(begin: string, items: seq<Item>)
    requires Blanks(begin) && Typable(items) && items != []
    ensures var last := items[|items| - 1];
            Parsed(begin + TypedLine(items)) ==
              if last.text == "" && last.gap == "" then Texts(items)[..|items| - 1]
              else if last.text != "" && |last.gap| >= 2 then Texts(items) + [last.text]
              else Texts(items)
  {
    TokensOfItems(items);
    SkipsGap(begin, TypedLine(items));
    ParsedIsAsWritten(begin + TypedLine(items));
  }

  /** Nothing comes of a line of blanks. */
  lemma BlankLine(line: string)
    requires Blanks(line)
    ensures Parsed(line) == []
  {
    SkipsGap(line, "");
    assert line + "" == line;
    ParsedIsAsWritten(line);
  }

  lemma VerbatimTail(text: string, quoted: bool)
    requires forall k :: 0 <= k < |text| ==> text[k] !in " \t\n\"\\"
    ensures Part(text, quoted).rest == []
  {
    VerbatimPart(text, quoted, "", text);
    assert text == text + "";
  }

  lemma OneWord(first: string, c: char, second: string, s: string)
    requires s == first + ([c] + second) && first != "" && second != "" && c !in " \t\n"
    requires forall k :: 0 <= k < |first| ==> first[k] !in " \t\n\"\\"
    requires forall k :: 0 <= k < |second| ==> second[k] !in " \t\n\"\\"
    ensures |Tokens(s)| == 1 && TrailingBlanks(s) == 0
  {
    var rest := [c] + second;
    VerbatimPart(first, false, rest, s);
    assert rest[1..] == second;
    VerbatimTail(second, false);
    VerbatimTail(second, true);
    VerbatimTail(second[1..], false);
    assert rest[2..] == second[1..];
    assert s[0] == first[0];
    assert SkipBlanks(s) == s && Word(s).rest == [];
  }

  /** Blank, tab and newline, and no other character, make two arguments of two words. */
  lemma SeparatesIff(first: string, c: char, second: string)
    requires first != "" && second != ""
    requires forall k :: 0 <= k < |first| ==> first[k] !in " \t\n\"\\"
    requires forall k :: 0 <= k < |second| ==> second[k] !in " \t\n\"\\"
    ensures Parsed(first + ([c] + second)) == [first, second] <==> c in " \t\n"
  {
    var s := first + ([c] + second);
    if c in " \t\n" {
      var items := [Item(first, false, [c]), Item(second, false, "")];
      assert items[1..] == [items[1]];
      assert TypedLine(items[1..]) == second + ("" + TypedLine([])) == second;
      assert "" + TypedLine(items) == s;
      TypedRoundTrip("", items);
    } else {
      OneWord(first, c, second, s);
      ParsedIsAsWritten(s);
    }
  }
}
