/** From tokens to operations: segments, transparent wrappers and classification. */
module CommandParser {
  import opened Common
  import opened Characters
  import opened Actions
  import opened CommandLexer

  /** One operation with its invocation, as classified. */
  datatype Operation = Operation(action: Action, executable: string, arguments: seq<string>) {
    function Vector(): seq<string> { [executable] + arguments }
  }

  function Fail<T>(kind: ErrorKind, offset: nat): Result<T, CommandError> {
    Err(CommandError(kind, offset))
  }

  predicate StartsWith(text: string, prefix: string) {
    |prefix| <= |text| && text[..|prefix|] == prefix
  }

  function IndexOf(text: string, c: char): (i: nat)
    ensures i <= |text| && (i < |text| ==> text[i] == c) && forall j :: 0 <= j < i ==> text[j] != c
  {
    if text == "" || text[0] == c then 0 else 1 + IndexOf(text[1..], c)
  }

  function LastIndexOf(text: string, c: char): (i: int)
    ensures -1 <= i < |text|
  {
    if text == "" then -1
    else if Last(text) == c then |text| - 1
    else LastIndexOf(text[..|text| - 1], c)
  }

  /** The final name of a path, ignoring trailing separators and dot segments. */
  function FileName(path: string): Option<string>
    decreases |path|
  {
    var i := LastIndexOf(path, '/');
    var last := path[i + 1..];
    if last == "" || last == "." then if i < 0 then None else FileName(path[..i])
    else if last == ".." then None
    else Some(last)
  }

  function ExecutableName(executable: string): string {
    var name := FileName(executable);
    if name.Some? then name.value else executable
  }

  predicate IsControlWord(t: Token) {
    !t.quoted &&
    t.value in ["if", "then", "elif", "else", "fi", "for", "while", "until", "case", "esac", "select",
                "function", "do", "done", "coproc"]
  }

  predicate IsNameStart(c: char) {
    c == '_' || 'a' <= c <= 'z' || 'A' <= c <= 'Z'
  }

  predicate IsAssignmentWord(value: string) {
    var n := IndexOf(value, '=');
    && n < |value|
    && n > 0 && IsNameStart(value[0])
    && forall i :: 0 < i < n ==> IsNameStart(value[i]) || '0' <= value[i] <= '9'
  }

  predicate IsShellInterpreter(name: string) {
    name in ["sh", "bash", "dash", "zsh", "ksh", "fish", "cmd", "cmd.exe", "powershell", "pwsh"]
  }

  predicate IsUnsupportedWrapper(name: string) {
    name in ["sudo", "su", "doas", "nice", "nohup", "timeout", "xargs", "setsid", "stdbuf", "chroot", "builtin"]
  }

  predicate IsStatefulBuiltin(name: string) {
    name in ["cd", "pushd", "popd", "export", "unset", "source", ".", "eval", "set", "read", "umask",
             "ulimit", "trap", "exit", "return", "break", "continue", "shift", "alias", "unalias"]
  }

  predicate IsWrapper(name: string) {
    name in ["env", "command", "exec", "time"]
  }

  predicate IsHardResetOption(argument: string) {
    var option := argument[..IndexOf(argument, '=')];
    option == "--hard" || (|option| > 2 && StartsWith("--hard", option))
  }

  predicate IsForceOption(argument: string) {
    StartsWith(argument, "--force") || StartsWith(argument, "+")
    || (StartsWith(argument, "-") && !StartsWith(argument, "--") && 'f' in argument[1..])
  }

  /** The index of the first token that is no supported wrapper. */
  function Unwrap(tokens: seq<Token>, index: nat): (r: Result<nat, CommandError>)
    requires index < |tokens|
    ensures r.Ok? ==> index <= r.value < |tokens|
    decreases |tokens| - index
  {
    var name := ExecutableName(tokens[index].value);
    if IsShellInterpreter(name) then Fail(UnsupportedSyntax, tokens[index].start)
    else if IsUnsupportedWrapper(name) then Fail(UnsupportedOperation, tokens[index].start)
    else if !IsWrapper(name) then Ok(index)
    else if index + 1 == |tokens| then Fail(UnsupportedOperation, tokens[index].start)
    else if StartsWith(tokens[index + 1].value, "-") || (name == "env" && '=' in tokens[index + 1].value)
    then Fail(UnsupportedOperation, tokens[index + 1].start)
    else Unwrap(tokens, index + 1)
  }

  predicate IsGit(name: string) {
    name == "git"
  }

  function GitSubcommand(name: string): Option<GitAction> {
    if name == "commit" then Some(Commit)
    else if name == "checkout" then Some(Checkout)
    else if name == "reset" then Some(Reset)
    else if name == "push" then Some(Push)
    else None
  }

  /** Options that would make a reset a hard reset or a push a force push. */
  predicate IsUnsupportedOption(action: GitAction, argument: string) {
    (action.Reset? && IsHardResetOption(argument)) || (action.Push? && IsForceOption(argument))
  }

  /** The first of the tokens with such an option. */
  function FindUnsupported(tokens: seq<Token>, action: GitAction): (r: Option<Token>)
    ensures r.Some? ==> r.value in tokens && IsUnsupportedOption(action, r.value.value)
    ensures r.None? ==> forall t :: t in tokens ==> !IsUnsupportedOption(action, t.value)
  {
    if tokens == [] then None
    else if IsUnsupportedOption(action, tokens[0].value) then Some(tokens[0])
    else FindUnsupported(tokens[1..], action)
  }

  function Classify(tokens: seq<Token>, index: nat): Result<Action, CommandError>
    requires index < |tokens|
  {
    var name := ExecutableName(tokens[index].value);
    if IsStatefulBuiltin(name) then Fail(UnsupportedOperation, tokens[index].start)
    else if !IsGit(name) || index + 1 == |tokens| then Ok(Execute)
    else
      match GitSubcommand(tokens[index + 1].value)
      case None => Ok(Execute)
      case Some(action) =>
        var flag := FindUnsupported(tokens[index + 2..], action);
        if flag.Some? then Fail(UnsupportedOperation, flag.value.start) else Ok(Git(action))
  }

  function Values(tokens: seq<Token>): (r: seq<string>)
    ensures |r| == |tokens| && forall i :: 0 <= i < |r| ==> r[i] == tokens[i].value
  {
    seq(|tokens|, i requires 0 <= i < |tokens| => tokens[i].value)
  }

  function ParseSegment(tokens: seq<Token>): Result<Operation, CommandError> {
    if tokens == [] then Fail(EmptyCommand, 0)
    else if IsControlWord(tokens[0]) then Fail(UnsupportedSyntax, tokens[0].start)
    else if IsAssignmentWord(tokens[0].value) then Fail(UnsupportedSyntax, tokens[0].start)
    else
      var index :- Unwrap(tokens, 0);
      var action :- Classify(tokens, index);
      if tokens[0].value == "" then Fail(MalformedSyntax, tokens[0].start)
      else Ok(Operation(action, tokens[0].value, Values(tokens[1..])))
  }

  /** The operations of the remaining tokens, after the words of `segment` and, when that is
      empty, after the separator `trailing`. */
  function ParseFrom(tokens: seq<Token>, segment: seq<Token>, trailing: Option<(Separator, nat)>):
    Result<seq<Operation>, CommandError>
    decreases |tokens|
  {
    if tokens == [] then
      if segment != [] then
        var operation :- ParseSegment(segment);
        Ok([operation])
      else if trailing.Some? && !trailing.value.0.Sequence? then Fail(MalformedSyntax, trailing.value.1)
      else Ok([])
    else
      match tokens[0].kind
      case Word => ParseFrom(tokens[1..], segment + [tokens[0]], None)
      case Separator(s) =>
        if segment == [] then Fail(MalformedSyntax, tokens[0].start)
        else
          var operation :- ParseSegment(segment);
          var rest :- ParseFrom(tokens[1..], [], Some((s, tokens[0].start)));
          Ok([operation] + rest)
  }

  function Parse(source: string): Result<seq<Operation>, CommandError> {
    if IsBlank(source) then Fail(EmptyCommand, 0)
    else
      var tokens :- Lex(source);
      if tokens == [] then Fail(EmptyCommand, 0)
      else
        var operations :- ParseFrom(tokens, [], None);
        if operations == [] then Fail(EmptyCommand, 0) else Ok(operations)
  }

  // The parser as it runs

  method UnwrapSupportedWrappers(tokens: seq<Token>) returns (r: Result<nat, CommandError>)
    requires tokens != []
    ensures r == Unwrap(tokens, 0)
  {
    hide ExecutableName, IsShellInterpreter, IsUnsupportedWrapper, IsWrapper, StartsWith;
    var index := 0;
    while true
      invariant 0 <= index < |tokens|
      invariant Unwrap(tokens, 0) == Unwrap(tokens, index)
      decreases |tokens| - index
    {
      var token := tokens[index];
      var name := ExecutableName(token.value);
      if IsShellInterpreter(name) {
        return Fail(UnsupportedSyntax, token.start);
      }
      if IsUnsupportedWrapper(name) {
        return Fail(UnsupportedOperation, token.start);
      }
      if !IsWrapper(name) {
        return Ok(index);
      }
      if index + 1 == |tokens| {
        return Fail(UnsupportedOperation, token.start);
      }
      var next := tokens[index + 1];
      if StartsWith(next.value, "-") || (name == "env" && '=' in next.value) {
        return Fail(UnsupportedOperation, next.start);
      }
      index := index + 1;
    }
  }

  method ReadSegment(tokens: seq<Token>) returns (r: Result<Operation, CommandError>)
    ensures r == ParseSegment(tokens)
  {
    hide Unwrap, Classify, IsControlWord, IsAssignmentWord;
    if tokens == [] {
      return Fail(EmptyCommand, 0);
    }
    var first := tokens[0];
    if IsControlWord(first) {
      return Fail(UnsupportedSyntax, first.start);
    }
    if IsAssignmentWord(first.value) {
      return Fail(UnsupportedSyntax, first.start);
    }
    var target :- UnwrapSupportedWrappers(tokens);
    var action :- Classify(tokens, target);
    if first.value == "" {
      return Fail(MalformedSyntax, first.start);
    }
    return Ok(Operation(action, first.value, Values(tokens[1..])));
  }

  function Joined(done: seq<Operation>, r: Result<seq<Operation>, CommandError>): Result<seq<Operation>, CommandError> {
    if r.Ok? then Ok(done + r.value) else r
  }

  lemma JoinedNothing(r: Result<seq<Operation>, CommandError>)
    ensures Joined([], r) == r
  {
    assert r.Ok? ==> [] + r.value == r.value;
  }

  /** One token of the loop: a word grows the segment, a separator ends it. */
  lemma OneToken(done: seq<Operation>, tokens: seq<Token>, segment: seq<Token>, trailing: Option<(Separator, nat)>)
    requires tokens != []
    ensures var all := Joined(done, ParseFrom(tokens, segment, trailing));
            match tokens[0].kind
            case Word => all == Joined(done, ParseFrom(tokens[1..], segment + [tokens[0]], None))
            case Separator(s) =>
              if segment == [] then all == Fail(MalformedSyntax, tokens[0].start)
              else
                match ParseSegment(segment)
                case Err(e) => all == Err(e)
                case Ok(operation) =>
                  all == Joined(done + [operation], ParseFrom(tokens[1..], [], Some((s, tokens[0].start))))
  {
    hide ParseSegment;
    if tokens[0].kind.Separator? && segment != [] && ParseSegment(segment).Ok? {
      var operation := ParseSegment(segment).value;
      var rest := ParseFrom(tokens[1..], [], Some((tokens[0].kind.separator, tokens[0].start)));
      assert rest.Ok? ==> done + ([operation] + rest.value) == done + [operation] + rest.value;
    }
  }

  lemma NoMoreTokens(done: seq<Operation>, segment: seq<Token>, trailing: Option<(Separator, nat)>)
    ensures var all := Joined(done, ParseFrom([], segment, trailing));
            if segment != [] then
              match ParseSegment(segment)
              case Err(e) => all == Err(e)
              case Ok(operation) => all == Ok(done + [operation])
            else if trailing.Some? && !trailing.value.0.Sequence? then all == Fail(MalformedSyntax, trailing.value.1)
            else all == Ok(done)
  {
    hide ParseSegment;
    assert done + [] == done;
  }

  method ParseTokens(tokens: seq<Token>) returns (r: Result<seq<Operation>, CommandError>)
    ensures r == ParseFrom(tokens, [], None)
  {
    hide ParseFrom, Joined, ParseSegment;
    var operations, segment: seq<Token>, trailing := [], [], None;
    var i := 0;
    ghost var goal := ParseFrom(tokens, [], None);
    JoinedNothing(goal);
    assert tokens[0..] == tokens;
    while i < |tokens|
      invariant 0 <= i <= |tokens|
      invariant goal == Joined(operations, ParseFrom(tokens[i..], segment, trailing))
    {
      var token := tokens[i];
      assert tokens[i..][0] == token && tokens[i..][1..] == tokens[i + 1..];
      OneToken(operations, tokens[i..], segment, trailing);
      match token.kind {
        case Word =>
          trailing := None;
          segment := segment + [token];
        case Separator(separator) =>
          if segment == [] {
            return Fail(MalformedSyntax, token.start);
          }
          var operation :- ReadSegment(segment);
          operations := operations + [operation];
          segment := [];
          trailing := Some((separator, token.start));
      }
      i := i + 1;
    }
    assert tokens[i..] == [];
    NoMoreTokens(operations, segment, trailing);
    if segment != [] {
      var operation :- ReadSegment(segment);
      operations := operations + [operation];
    } else if trailing.Some? && !trailing.value.0.Sequence? {
      return Fail(MalformedSyntax, trailing.value.1);
    }
    return Ok(operations);
  }

  method ParseCommandLine<C>(source: string, context: C) returns (r: Result<(C, seq<Operation>), CommandError>)
    ensures r == match Parse(source) case Ok(operations) => Ok((context, operations)) case Err(e) => Err(e)
  {
    hide Lex, ParseFrom, IsBlank;
    if IsBlank(source) {
      return Fail(EmptyCommand, 0);
    }
    var tokens :- LexLine(source);
    if tokens == [] {
      return Fail(EmptyCommand, 0);
    }
    var operations :- ParseTokens(tokens);
    if operations == [] {
      return Fail(EmptyCommand, 0);
    }
    return Ok((context, operations));
  }
}
