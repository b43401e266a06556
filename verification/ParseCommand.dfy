/** The shell tokenizer (lab1/lib/parse_command.c): a table of transitions driven by a loop that fills buffers. */
module ParseCommand {

  const ARGUMENT_SIZE: nat := 4096

  datatype State = LookForArg | InArg | InQuote | EscapedInArg | EscapedInQuotedArg

  datatype Category = Whitespace | DoubleQuote | Escape | Others

  datatype Action = CreateArg | CreateAndAddToArg | AddToArg | CloseArg | Ignore

  datatype Effect = Effect(nextState: State, action: Action)

  predicate IsBlank(c: char) { c == ' ' || c == '\t' || c == '\n' }

  function ParseNextChar(c: char): (r: Category) {
    if IsBlank(c) then Whitespace
    else if c == '\"' then DoubleQuote
    else if c == '\\' then Escape
    else Others
  }

  /** The table TRANSITIONS. */
  function Transition(state: State, category: Category): (r: Effect) {
    match state
    case LookForArg => (
      match category
      case Whitespace => Effect(LookForArg, Ignore)
      case DoubleQuote => Effect(InQuote, CreateArg)
      case Escape => Effect(EscapedInArg, CreateArg)
      case Others => Effect(InArg, CreateAndAddToArg))
    case InArg => (
      match category
      case Whitespace => Effect(LookForArg, CloseArg)
      case DoubleQuote => Effect(InQuote, Ignore)
      case Escape => Effect(EscapedInArg, Ignore)
      case Others => Effect(InArg, AddToArg))
    case InQuote => (
      match category
      case Whitespace => Effect(InQuote, AddToArg)
      case DoubleQuote => Effect(InArg, Ignore)
      case Escape => Effect(EscapedInQuotedArg, Ignore)
      case Others => Effect(InQuote, AddToArg))
    case EscapedInArg => Effect(InArg, AddToArg)
    case EscapedInQuotedArg => Effect(InQuote, AddToArg)
  }

  // ---------------------------------------------------------------------------------------------
  // What the loop does, on values

  /** The local variables of the loop: `argument` is the text in the current buffer, `lastAction` is `effect.action`. */
  datatype Machine = Machine(state: State, argument: string, lastAction: Action, arguments: seq<string>)

  /** The variable `effect` is not initialised; nothing depends on what it holds (`StartIsArbitrary`). */
  function Start(garbage: Action): (r: Machine) { Machine(LookForArg, "", garbage, []) }

  function Feed(m: Machine, c: char): (r: Machine) {
    var effect := Transition(m.state, ParseNextChar(c));
    var argument :=
      match effect.action
      case CreateArg => ""
      case CreateAndAddToArg => [c]
      case AddToArg => m.argument + [c]
      case _ => m.argument;
    var arguments := if effect.action == CloseArg then m.arguments + [m.argument] else m.arguments;
    Machine(effect.nextState, argument, effect.action, arguments)
  }

  function Run(m: Machine, s: string): (r: Machine)
    decreases |s|
  {
    if s == [] then m else Run(Feed(m, s[0]), s[1..])
  }

  /** The test after the loop looks only at the last action and at the text of the last buffer. */
  function Finish(m: Machine): (r: seq<string>) {
    if m.lastAction != CloseArg && m.argument != "" then m.arguments + [m.argument] else m.arguments
  }

  /** The arguments the program computes. */
  function Parsed(command: string): (r: seq<string>) { Finish(Run(Start(Ignore), command)) }

  lemma StartIsArbitrary(garbage: Action, command: string)
    ensures Finish(Run(Start(garbage), command)) == Parsed(command)
  {
    if command != [] {
      assert Feed(Start(garbage), command[0]) == Feed(Start(Ignore), command[0]);
    }
  }

  lemma {:induction false} ArgumentsOnlyGrow(m: Machine, s: string)
    ensures |m.arguments| <= |Finish(Run(m, s))|
    decreases |s|
  {
    if s != [] {
      ArgumentsOnlyGrow(Feed(m, s[0]), s[1..]);
    }
  }

  /** Whether the end of the text would add the last argument once more. */
  function Pending(m: Machine): (n: nat) {
    if m.state != LookForArg || (m.lastAction != CloseArg && m.argument != "") then 1 else 0
  }

  lemma {:induction false} EachArgumentTakesACharacter(m: Machine, s: string)
    ensures |Finish(Run(m, s))| <= |m.arguments| + Pending(m) + |s|
    decreases |s|
  {
    if s != [] {
      EachArgumentTakesACharacter(Feed(m, s[0]), s[1..]);
    }
  }

  /** There are no more arguments than characters, so a table with one entry more than the line always suffices. */
  lemma NoMoreThanCharacters(command: string)
    ensures |Parsed(command)| <= |command|
  {
    EachArgumentTakesACharacter(Start(Ignore), command);
  }

  /** No argument the loop builds outgrows a buffer of the given size. */
  predicate Fits(m: Machine, s: string, size: nat)
    decreases |s|
  {
    |m.argument| < size && (s != [] ==> Fits(Feed(m, s[0]), s[1..], size))
  }

  lemma {:induction false} ShortTextFits(m: Machine, s: string, size: nat)
    requires |m.argument| + |s| < size
    ensures Fits(m, s, size)
    decreases |s|
  {
    if s != [] {
      ShortTextFits(Feed(m, s[0]), s[1..], size);
    }
  }

  lemma FitsNext(m: Machine, command: string, i: nat, size: nat)
    requires i < |command| && Fits(m, command[i..], size)
    ensures Fits(Feed(m, command[i]), command[i + 1..], size) && |Feed(m, command[i]).argument| < size
  {
    var next, rest := Feed(m, command[i]), command[i + 1..];
    assert command[i..][0] == command[i] && command[i..][1..] == rest;
    assert Fits(next, rest, size);
  }

  lemma NextCharacter(m: Machine, command: string, i: nat)
    requires i < |command| && '\0' !in command && '\0' !in m.argument
    ensures '\0' !in Feed(m, command[i]).argument
    ensures Finish(Run(m, command[i..])) == Finish(Run(Feed(m, command[i]), command[i + 1..]))
    ensures |Feed(m, command[i]).arguments| <= |Finish(Run(m, command[i..]))|
  {
    assert command[i..][0] == command[i] && command[i..][1..] == command[i + 1..];
    ArgumentsOnlyGrow(Feed(m, command[i]), command[i + 1..]);
  }

  // ---------------------------------------------------------------------------------------------
  // The loop, on buffers

  /** The buffer holds the text as a string that ends in NUL. */
  ghost predicate HoldsText(buffer: array<char>, text: string)
    reads buffer
  {
    |text| < buffer.Length && buffer[..|text|] == text && buffer[|text|] == '\0'
  }

  /** The first entries of the table point to buffers that hold the texts. */
  ghost predicate HoldsAll(arguments: array<array?<char>>, texts: seq<string>)
    reads arguments, arguments[..]
  {
    && |texts| <= arguments.Length
    && forall k :: 0 <= k < |texts| ==> arguments[k] != null && HoldsText(arguments[k], texts[k])
  }

  /** The buffer being filled: while an argument is open it is a large buffer that no entry points to. */
  ghost predicate Filling(m: Machine, argument: array<char>, argumentIdx: nat, arguments: array<array?<char>>)
    requires |m.arguments| <= arguments.Length
    reads argument, arguments
  {
    && argumentIdx == |m.argument| < argument.Length
    && argument[..argumentIdx] == m.argument
    && (if m.state == LookForArg then argument[argumentIdx] == '\0'
        else argument.Length == ARGUMENT_SIZE && argument !in arguments[..|m.arguments|])
  }

  /** The `switch` statement. */
  method Perform(ghost m: Machine, c: char, action: Action, argument: array<char>, argumentIdx: nat,
                 arguments: array<array?<char>>, argumentsIdx: nat)
    returns (argument': array<char>, argumentIdx': nat, argumentsIdx': nat)
    requires action == Transition(m.state, ParseNextChar(c)).action
    requires argumentsIdx == |m.arguments| && |Feed(m, c).arguments| <= arguments.Length
    requires HoldsAll(arguments, m.arguments) && Filling(m, argument, argumentIdx, arguments)
    requires |Feed(m, c).argument| < ARGUMENT_SIZE
    modifies argument, arguments
    ensures argument' == argument || fresh(argument')
    ensures argumentsIdx' == |Feed(m, c).arguments|
    ensures HoldsAll(arguments, Feed(m, c).arguments) && Filling(Feed(m, c), argument', argumentIdx', arguments)
  {
    argument', argumentIdx', argumentsIdx' := argument, argumentIdx, argumentsIdx;
    match action {
      case CreateArg =>
        argument' := new char[ARGUMENT_SIZE];
        argumentIdx' := 0;
      case CreateAndAddToArg =>
        argument' := new char[ARGUMENT_SIZE];
        argument'[0] := c;
        argumentIdx' := 1;
      case AddToArg =>
        argument[argumentIdx] := c;
        argumentIdx' := argumentIdx + 1;
      case CloseArg =>
        argument[argumentIdx] := '\0';
        arguments[argumentsIdx] := argument;
        argumentsIdx' := argumentsIdx + 1;
      case Ignore =>
    }
  }

  /** The two tests after the loop; `strlen(argument)` is not zero exactly when the first character is not NUL. */
  method FinishLast(ghost m: Machine, action: Action, argument: array<char>, argumentIdx: nat,
                    arguments: array<array?<char>>, argumentsIdx: nat)
    requires action == m.lastAction
    requires argumentsIdx == |m.arguments| && |Finish(m)| < arguments.Length && '\0' !in m.argument
    requires HoldsAll(arguments, m.arguments) && Filling(m, argument, argumentIdx, arguments)
    modifies argument, arguments
    ensures HoldsAll(arguments, Finish(m))
    ensures arguments[|Finish(m)|] == null
  {
    var next := argumentsIdx;
    if argument[argumentIdx] != '\0' {
      argument[argumentIdx] := '\0';
    }
    assert argument[0] != '\0' <==> m.argument != "";
    if action != CloseArg && argument[0] != '\0' {
      arguments[next] := argument;
      next := next + 1;
    }
    arguments[next] := null;
  }

  /** `garbage` is what the uninitialised `effect` holds. */
  method ParseCommand(command: string, arguments: array<array?<char>>, garbage: Action)
    requires '\0' !in command && Fits(Start(garbage), command, ARGUMENT_SIZE)
    requires |command| < arguments.Length
    modifies arguments
    ensures |Parsed(command)| < arguments.Length
    ensures HoldsAll(arguments, Parsed(command)) && arguments[|Parsed(command)|] == null
  {
    var state, action := LookForArg, garbage;
    var argument := new char[2](_ => '\0');
    var argumentIdx: nat, argumentsIdx: nat, i: nat := 0, 0, 0;
    ghost var m := Start(garbage);
    StartIsArbitrary(garbage, command);
    NoMoreThanCharacters(command);
    while i < |command|
      invariant i <= |command|
      invariant Finish(Run(m, command[i..])) == Parsed(command)
      invariant m.state == state && m.lastAction == action
      invariant argumentsIdx == |m.arguments| <= |Parsed(command)|
      invariant fresh(argument)
      invariant Fits(m, command[i..], ARGUMENT_SIZE) && '\0' !in m.argument
      invariant HoldsAll(arguments, m.arguments) && Filling(m, argument, argumentIdx, arguments)
    {
      var c := command[i];
      var effect := Transition(state, ParseNextChar(c));
      NextCharacter(m, command, i);
      FitsNext(m, command, i, ARGUMENT_SIZE);
      action := effect.action;
      argument, argumentIdx, argumentsIdx :=
        Perform(m, c, action, argument, argumentIdx, arguments, argumentsIdx);
      m := Feed(m, c);
      state := effect.nextState;
      i := i + 1;
    }
    assert Finish(m) == Parsed(command);
    FinishLast(m, action, argument, argumentIdx, arguments, argumentsIdx);
  }
}
