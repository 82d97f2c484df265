/** Which words run which actions, and how the others are refused, with every name and option
    written out. */
module CommandClassification {
  import opened Common
  import opened Actions
  import opened Characters
  import opened CommandLexer
  import opened CommandParser
  import opened CommandParserTheorems

  // The words

  const CONTROL_WORDS: set<string> :=
    {"if", "then", "elif", "else", "fi", "for", "while", "until", "case", "esac", "select", "function", "do", "done",
     "coproc"}

  const SHELLS: set<string> := {"sh", "bash", "dash", "zsh", "ksh", "fish", "cmd", "cmd.exe", "powershell", "pwsh"}

  const UNSUPPORTED: set<string> :=
    {"sudo", "su", "doas", "nice", "nohup", "timeout", "xargs", "setsid", "stdbuf", "chroot", "builtin"}

  const STATEFUL: set<string> :=
    {"cd", "pushd", "popd", "export", "unset", "source", ".", "eval", "set", "read", "umask", "ulimit", "trap", "exit",
     "return", "break", "continue", "shift", "alias", "unalias"}

  const WRAPPERS: set<string> := {"env", "command", "exec", "time"}

  const HARD: set<string> := {"--h", "--ha", "--har", "--hard"}

  predicate Begins(word: string, prefix: string) {
    |prefix| <= |word| && forall i :: 0 <= i < |prefix| ==> word[i] == prefix[i]
  }

  /** A name, an equals sign and anything. */
  predicate Assigns(word: string) {
    exists n :: 0 < n < |word| && word[n] == '=' &&
                (word[0] == '_' || 'a' <= word[0] <= 'z' || 'A' <= word[0] <= 'Z') &&
                forall i :: 0 < i < n ==>
                  word[i] == '_' || 'a' <= word[i] <= 'z' || 'A' <= word[i] <= 'Z' || '0' <= word[i] <= '9'
  }

  /** An abbreviation of `--hard`, alone or with a value. */
  predicate MakesHard(word: string) {
    exists option :: option in HARD && Begins(word, option) && (|word| > |option| ==> word[|option|] == '=')
  }

  /** `--force` and what begins with it, a forced refspec, or a cluster of short options with `f`. */
  predicate MakesForced(word: string) {
    || Begins(word, "--force")
    || Begins(word, "+")
    || (|word| > 1 && word[0] == '-' && word[1] != '-' && exists i :: 0 < i < |word| && word[i] == 'f')
  }

  lemma BeginsIsPrefix(word: string, prefix: string)
    ensures StartsWith(word, prefix) <==> Begins(word, prefix)
  {
    if Begins(word, prefix) { assert word[..|prefix|] == prefix; }
  }

  lemma ControlWordsByName(t: Token)
    ensures IsControlWord(t) <==> !t.quoted && t.value in CONTROL_WORDS
  {
  }

  lemma ShellsByName(name: string)
    ensures IsShellInterpreter(name) <==> name in SHELLS
  {
  }

  lemma UnsupportedByName(name: string)
    ensures IsUnsupportedWrapper(name) <==> name in UNSUPPORTED
  {
  }

  lemma StatefulByName(name: string)
    ensures IsStatefulBuiltin(name) <==> name in STATEFUL
  {
  }

  lemma WrappersByName(name: string)
    ensures IsWrapper(name) <==> name in WRAPPERS
    ensures IsGit(name) <==> name == "git"
  {
  }

  lemma AssignmentsByLetter(word: string)
    ensures IsAssignmentWord(word) <==> Assigns(word)
  {
    var n := IndexOf(word, '=');
    if Assigns(word) {
      var m :| 0 < m < |word| && word[m] == '=' &&
               (word[0] == '_' || 'a' <= word[0] <= 'z' || 'A' <= word[0] <= 'Z') &&
               forall i :: 0 < i < m ==>
                 word[i] == '_' || 'a' <= word[i] <= 'z' || 'A' <= word[i] <= 'Z' || '0' <= word[i] <= '9';
      assert n == m;
    }
  }

  lemma HardByAbbreviation(word: string)
    ensures IsHardResetOption(word) <==> MakesHard(word)
  {
    var n := IndexOf(word, '=');
    var option := word[..n];
    if IsHardResetOption(word) {
      assert option == "--hard"[..n];
      assert option in HARD by { PrefixesOfHard(n); }
      assert Begins(word, option);
    }
    if MakesHard(word) {
      var o :| o in HARD && Begins(word, o) && (|word| > |o| ==> word[|o|] == '=');
      HardHasNoEquals(o);
      assert forall i :: 0 <= i < |o| ==> word[i] == o[i];
      assert n == |o| && option == o;
    }
  }

  lemma PrefixesOfHard(n: nat)
    requires 3 <= n <= 6
    ensures "--hard"[..n] in HARD
  {
    assert "--hard"[..3] == "--h" && "--hard"[..4] == "--ha" && "--hard"[..5] == "--har" && "--hard"[..6] == "--hard";
  }

  lemma HardHasNoEquals(option: string)
    requires option in HARD
    ensures 3 <= |option| <= 6 && option == "--hard"[..|option|]
    ensures forall i :: 0 <= i < |option| ==> option[i] != '='
  {
  }

  lemma ForcedBySpelling(word: string)
    ensures IsForceOption(word) <==> MakesForced(word)
  {
    BeginsIsPrefix(word, "--force");
    BeginsIsPrefix(word, "+");
    BeginsIsPrefix(word, "-");
    BeginsIsPrefix(word, "--");
    if |word| > 1 {
      assert 'f' in word[1..] <==> exists i :: 0 < i < |word| && word[i] == 'f' by {
        if i :| 0 < i < |word| && word[i] == 'f' { assert word[1..][i - 1] == 'f'; }
      }
    }
  }

  // Final names

  lemma {:induction false} LastIndexIs(text: string, c: char, i: nat)
    requires i < |text| && text[i] == c && forall j :: i < j < |text| ==> text[j] != c
    ensures LastIndexOf(text, c) == i
  {
    if i < |text| - 1 { LastIndexIs(text[..|text| - 1], c, i); }
  }

  lemma {:induction false} NoLastIndex(text: string, c: char)
    requires c !in text
    ensures LastIndexOf(text, c) == -1
  {
    if text != "" { NoLastIndex(text[..|text| - 1], c); }
  }

  /** A command is classified by its final name: the directory in front of it and separators
      or dot segments behind it do not matter. */
  lemma DirectoriesDoNotMatter(directory: string, name: string)
    requires name != "" && name != "." && name != ".." && '/' !in name
    ensures ExecutableName(name) == name
    ensures ExecutableName(directory + "/" + name) == name
    ensures ExecutableName(directory + "/" + name + "/") == name
    ensures ExecutableName(directory + "/" + name + "/.") == name
  {
    hide LastIndexOf, FileName;
    var path := directory + "/" + name;
    FinalName(path, |directory|);
    assert path[|directory| + 1..] == name;
    NoLastIndex(name, '/');
    FinalNameAlone(name);
    TrailingIsIgnored(path, "");
    TrailingIsIgnored(path, ".");
    assert path + "/" + "" == path + "/" && path + "/" + "." == path + "/.";
  }

  lemma FinalName(path: string, i: nat)
    requires i < |path| && path[i] == '/' && '/' !in path[i + 1..]
    requires path[i + 1..] != "" && path[i + 1..] != "." && path[i + 1..] != ".."
    ensures FileName(path) == Some(path[i + 1..])
  {
    hide LastIndexOf;
    assert forall j :: i < j < |path| ==> path[j] == path[i + 1..][j - i - 1];
    LastIndexIs(path, '/', i);
  }

  lemma FinalNameAlone(name: string)
    requires LastIndexOf(name, '/') == -1 && name != "" && name != "." && name != ".."
    ensures FileName(name) == Some(name)
  {
    hide LastIndexOf;
    assert name[0..] == name;
  }

  lemma TrailingIsIgnored(path: string, rest: string)
    requires rest == "" || rest == "."
    ensures FileName(path + "/" + rest) == FileName(path)
  {
    hide LastIndexOf;
    var whole := path + "/" + rest;
    assert whole[|path|] == '/' && whole[|path| + 1..] == rest && whole[..|path|] == path;
    assert forall j :: |path| < j < |whole| ==> whole[j] == rest[j - |path| - 1];
    LastIndexIs(whole, '/', |path|);
  }

  /** Nothing but separators and dot segments. */
  predicate IsTrail(text: string) {
    text == "" || (text[0] == '/' && (IsTrail(text[1..]) || (|text| > 1 && text[1] == '.' && IsTrail(text[2..]))))
  }

  /** A path whose last component is `name`: a directory in front, separators and dot segments
      behind. */
  ghost predicate HasLastName(path: string, name: string) {
    && name != "" && name != "." && name != ".." && '/' !in name
    && exists directory, trail ::
         path == directory + name + trail && (directory == "" || Last(directory) == '/') && IsTrail(trail)
  }

  lemma {:induction false} TrailGrows(trail: string, last: string)
    requires IsTrail(trail) && (last == "" || last == ".")
    ensures IsTrail(trail + "/" + last)
    decreases |trail|
  {
    var whole := trail + "/" + last;
    if trail == "" {
      assert whole[1..] == last && (last == "." ==> whole[2..] == "");
    } else if IsTrail(trail[1..]) {
      TrailGrows(trail[1..], last);
      assert whole[1..] == trail[1..] + "/" + last;
    } else {
      TrailGrows(trail[2..], last);
      assert whole[2..] == trail[2..] + "/" + last;
    }
  }

  lemma {:induction false} TrailEnds(trail: string) returns (front: string, last: string)
    requires IsTrail(trail) && trail != ""
    ensures IsTrail(front) && (last == "" || last == ".") && trail == front + "/" + last
    decreases |trail|
  {
    var n := if IsTrail(trail[1..]) then 1 else 2;
    if trail[n..] == "" {
      front, last := "", trail[1..];
    } else {
      var inner;
      inner, last := TrailEnds(trail[n..]);
      front := trail[..n] + inner;
      assert trail == trail[..n] + trail[n..];
      if n == 1 {
        assert front[1..] == inner;
      } else {
        assert front[0] == trail[0] && front[1] == trail[1];
        assert front[2..] == inner;
      }
    }
  }

  lemma LastNameBy(path: string, directory: string, name: string, trail: string)
    requires name != "" && name != "." && name != ".." && '/' !in name
    requires path == directory + name + trail && (directory == "" || Last(directory) == '/') && IsTrail(trail)
    ensures HasLastName(path, name)
  {
    hide IsTrail;
  }

  /** A name stays the last one when a separator and a dot segment or nothing follow. */
  lemma LastNameStays(path: string, name: string, last: string)
    requires HasLastName(path, name) && (last == "" || last == ".")
    ensures HasLastName(path + "/" + last, name)
  {
    hide IsTrail;
    var directory, trail :|
      path == directory + name + trail && (directory == "" || Last(directory) == '/') && IsTrail(trail);
    TrailGrows(trail, last);
    assert path + "/" + last == directory + name + (trail + "/" + last);
    LastNameBy(path + "/" + last, directory, name, trail + "/" + last);
  }

  lemma FileNameStep(path: string, i: int, last: string)
    requires i == LastIndexOf(path, '/') && last == path[i + 1..]
    ensures last == "" || last == "." ==> FileName(path) == if i < 0 then None else FileName(path[..i])
    ensures last == ".." ==> FileName(path) == None
    ensures last != "" && last != "." && last != ".." ==> FileName(path) == Some(last)
  {
    hide LastIndexOf;
  }

  /** The final name that is looked up is the last component. */
  lemma {:induction false} FileNameIsLast(path: string)
    ensures FileName(path).Some? ==> HasLastName(path, FileName(path).value)
    decreases |path|
  {
    hide IsTrail, LastIndexOf, HasLastName, FileName;
    var i := LastIndexOf(path, '/');
    FileNameStep(path, i, path[i + 1..]);
    if path[i + 1..] == "" || path[i + 1..] == "." {
      if i >= 0 {
        FileNameIsLast(path[..i]);
        BehindLastName(path, i);
      }
    } else if path[i + 1..] != ".." {
      LastNameHere(path, i);
    }
  }

  lemma BehindLastName(path: string, i: nat)
    requires i < |path| && i == LastIndexOf(path, '/') && (path[i + 1..] == "" || path[i + 1..] == ".")
    requires FileName(path[..i]).Some? ==> HasLastName(path[..i], FileName(path[..i]).value)
    ensures FileName(path[..i]).Some? ==> HasLastName(path, FileName(path[..i]).value)
  {
    hide IsTrail, LastIndexOf, HasLastName, FileName;
    if FileName(path[..i]).Some? {
      LastIndexFacts(path, '/');
      CutAtSlash(path, i);
      LastNameStays(path[..i], FileName(path[..i]).value, path[i + 1..]);
    }
  }

  lemma CutAtSlash(path: string, i: nat)
    requires i < |path| && path[i] == '/'
    ensures path == path[..i] + "/" + path[i + 1..]
  {
  }

  lemma LastNameHere(path: string, i: int)
    requires i == LastIndexOf(path, '/')
    requires path[i + 1..] != "" && path[i + 1..] != "." && path[i + 1..] != ".."
    ensures HasLastName(path, path[i + 1..])
  {
    hide IsTrail, HasLastName, LastIndexOf;
    LastIndexFacts(path, '/');
    LastNameBehind(path, i);
  }

  lemma LastNameBehind(path: string, i: int)
    requires -1 <= i < |path| && (i >= 0 ==> path[i] == '/') && '/' !in path[i + 1..]
    requires path[i + 1..] != "" && path[i + 1..] != "." && path[i + 1..] != ".."
    ensures HasLastName(path, path[i + 1..])
  {
    hide IsTrail, HasLastName;
    NoTrail();
    CutAt(path, i + 1);
    assert path[..i + 1] != "" ==> Last(path[..i + 1]) == path[i];
    LastNameBy(path, path[..i + 1], path[i + 1..], "");
  }

  lemma CutAt(path: string, n: nat)
    requires n <= |path|
    ensures path == path[..n] + path[n..] + ""
  {
  }

  lemma NoTrail()
    ensures IsTrail("")
  {
  }

  lemma {:induction false} LastIndexFacts(text: string, c: char)
    ensures var i := LastIndexOf(text, c);
            && (i >= 0 ==> text[i] == c)
            && c !in text[i + 1..]
  {
    if text != "" && Last(text) != c {
      LastIndexFacts(text[..|text| - 1], c);
      var i := LastIndexOf(text, c);
      assert text[i + 1..] == text[..|text| - 1][i + 1..] + [Last(text)];
    }
  }

  lemma {:induction false} LastIsFileName(directory: string, name: string, trail: string)
    requires name != "" && name != "." && name != ".." && '/' !in name
    requires (directory == "" || Last(directory) == '/') && IsTrail(trail)
    ensures FileName(directory + name + trail) == Some(name)
    decreases |trail|
  {
    hide IsTrail, LastIndexOf, FileName;
    if trail == "" {
      var path := directory + name;
      assert path + trail == path;
      if directory == "" {
        assert path == name;
        NoLastIndex(name, '/');
        FinalNameAlone(name);
      } else {
        assert path[|directory|..] == name && path[|directory| - 1] == '/';
        FinalName(path, |directory| - 1);
      }
    } else {
      var front, last := TrailEnds(trail);
      LastIsFileName(directory, name, front);
      TrailingIsIgnored(directory + name + front, last);
      assert directory + name + trail == directory + name + front + "/" + last;
    }
  }

  /** A word runs under its last component, or as it stands if it has none. */
  lemma NamesInFull(word: string, name: string)
    ensures HasLastName(word, name) ==> ExecutableName(word) == name
    ensures (forall other :: !HasLastName(word, other)) ==> ExecutableName(word) == word
  {
    hide FileName, IsTrail;
    if HasLastName(word, name) {
      var directory, trail :|
        word == directory + name + trail && (directory == "" || Last(directory) == '/') && IsTrail(trail);
      LastIsFileName(directory, name, trail);
    }
    FileNameIsLast(word);
  }

  // Commands and actions

  /** A wrapper that may stand in front of the next word. */
  predicate WrapsAt(words: seq<string>, i: nat)
    requires i + 1 < |words|
  {
    var name := ExecutableName(words[i]);
    && name in WRAPPERS
    && !Begins(words[i + 1], "-")
    && (name == "env" ==> '=' !in words[i + 1])
  }

  /** The words from position `from` are wrappers up to a command at position `k` that is no
      shell and no wrapper of any kind. */
  predicate CommandAt(words: seq<string>, from: nat, k: nat) {
    && from <= k < |words|
    && (forall i :: from <= i < k ==> WrapsAt(words, i))
    && ExecutableName(words[k]) !in SHELLS && ExecutableName(words[k]) !in UNSUPPORTED
    && ExecutableName(words[k]) !in WRAPPERS
  }

  /** The word behind `git`, or nothing. */
  function Subcommand(words: seq<string>, k: nat): string
    requires k < |words|
  {
    if ExecutableName(words[k]) == "git" && k + 1 < |words| then words[k + 1] else ""
  }

  /** What the command at position `k` does: one of four Git actions by its subcommand, without
      options that make it another, or plain execution. */
  predicate ActsAs(words: seq<string>, k: nat, action: Action)
    requires k < |words|
  {
    var sub := Subcommand(words, k);
    && ExecutableName(words[k]) !in STATEFUL
    && (action == Git(Commit) <==> sub == "commit")
    && (action == Git(Checkout) <==> sub == "checkout")
    && (action == Git(Reset) <==> sub == "reset")
    && (action == Git(Push) <==> sub == "push")
    && (action == Execute <==> sub !in {"commit", "checkout", "reset", "push"})
    && (sub == "reset" ==> forall i :: k + 2 <= i < |words| ==> !MakesHard(words[i]))
    && (sub == "push" ==> forall i :: k + 2 <= i < |words| ==> !MakesForced(words[i]))
  }

  /** The command a vector runs behind `k` wrappers, and what it does. */
  predicate Invokes(words: seq<string>, k: nat, action: Action) {
    CommandAt(words, 0, k) && ActsAs(words, k, action)
  }

  /** Unwrapping stops at a command exactly where the words say so. */
  lemma {:induction false} UnwrapsToCommand(tokens: seq<Token>, index: nat, k: nat)
    requires index < |tokens|
    ensures Unwrap(tokens, index) == Ok(k) <==> CommandAt(Values(tokens), index, k)
    decreases |tokens| - index
  {
    hide ExecutableName, IsShellInterpreter, IsUnsupportedWrapper, IsWrapper, StartsWith, Begins;
    var words := Values(tokens);
    var name := ExecutableName(tokens[index].value);
    ShellsByName(name);
    UnsupportedByName(name);
    WrappersByName(name);
    WrappersAreNoOthers(name);
    if index + 1 < |tokens| {
      BeginsIsPrefix(words[index + 1], "-");
      UnwrapsToCommand(tokens, index + 1, k);
      assert CommandAt(words, index, k) && index < k ==> WrapsAt(words, index);
    }
  }

  lemma WrappersAreNoOthers(name: string)
    ensures name in WRAPPERS ==> name !in SHELLS && name !in UNSUPPORTED && name !in STATEFUL && name != "git"
  {
  }

  lemma SubcommandsByName(name: string)
    ensures GitSubcommand(name) ==
            if name == "commit" then Some(Commit) else if name == "checkout" then Some(Checkout)
            else if name == "reset" then Some(Reset) else if name == "push" then Some(Push) else None
  {
  }

  lemma {:induction false} FoundOption(tokens: seq<Token>, action: GitAction)
    ensures FindUnsupported(tokens, action).None? <==>
            forall i :: 0 <= i < |tokens| ==>
              !(action == Reset && MakesHard(tokens[i].value)) && !(action == Push && MakesForced(tokens[i].value))
  {
    hide MakesHard, MakesForced, IsHardResetOption, IsForceOption;
    if tokens != [] {
      HardByAbbreviation(tokens[0].value);
      ForcedBySpelling(tokens[0].value);
      FoundOption(tokens[1..], action);
      assert forall i :: 0 < i < |tokens| ==> tokens[i] == tokens[1..][i - 1];
    }
  }

  lemma ClassifiesAs(tokens: seq<Token>, k: nat, action: Action)
    requires k < |tokens|
    ensures Classify(tokens, k) == Ok(action) <==> ActsAs(Values(tokens), k, action)
  {
    hide ExecutableName, IsStatefulBuiltin, IsGit, MakesHard, MakesForced, FindUnsupported, GitSubcommand;
    var words := Values(tokens);
    StatefulByName(ExecutableName(words[k]));
    WrappersByName(ExecutableName(words[k]));
    if k + 1 < |words| {
      SubcommandsByName(words[k + 1]);
      var rest := tokens[k + 2..];
      assert forall i :: 0 <= i < |rest| ==> rest[i].value == words[k + 2 + i];
      assert forall i :: k + 2 <= i < |words| ==> words[i] == rest[i - k - 2].value;
      FoundOption(rest, Reset);
      FoundOption(rest, Push);
      FoundOption(rest, Commit);
      FoundOption(rest, Checkout);
    }
  }

  /** A segment parses to an operation exactly when its first word is no unquoted control word,
      no assignment and not empty, the operation has its words, and they are wrappers in front
      of a command that does the action. */
  lemma SegmentsAreClassified(segment: seq<Token>, op: Operation)
    ensures ParseSegment(segment) == Ok(op) <==>
            && segment != []
            && (segment[0].value in CONTROL_WORDS ==> segment[0].quoted)
            && !Assigns(segment[0].value) && segment[0].value != ""
            && [op.executable] + op.arguments == Values(segment)
            && exists k :: Invokes(Values(segment), k, op.action)
  {
    hide Unwrap, Classify, CommandAt, ActsAs, IsAssignmentWord, IsControlWord, Assigns;
    var words := Values(segment);
    if segment != [] {
      ControlWordsByName(segment[0]);
      AssignmentsByLetter(segment[0].value);
    }
    if ParseSegment(segment) == Ok(op) {
      var k := Unwrap(segment, 0).value;
      SegmentVector(segment);
      UnwrapsToCommand(segment, 0, k);
      ClassifiesAs(segment, k, op.action);
      assert Invokes(words, k, op.action);
    } else if segment != [] && [op.executable] + op.arguments == words && exists k :: Invokes(words, k, op.action) {
      var k: nat :| Invokes(words, k, op.action);
      UnwrapsToCommand(segment, 0, k);
      InRange(words, k);
      ClassifiesAs(segment, k, op.action);
      assert op.executable == words[0] && op.arguments == words[1..];
      assert words[1..] == Values(segment[1..]);
    }
  }

  lemma InRange(words: seq<string>, k: nat)
    requires CommandAt(words, 0, k)
    ensures k < |words|
  {
  }

  /** Every operation of a source runs, behind permitted wrappers only, a command that is no
      shell, wrapper or stateful builtin; it is a Git action exactly for `git` with `commit`,
      `checkout`, `reset` or `push`, and then without options that make a reset hard or a push
      forced. */
  lemma OperationsAreClassified(source: string)
    requires Parse(source).Ok?
    ensures forall op :: op in Parse(source).value ==> exists k :: Invokes([op.executable] + op.arguments, k, op.action)
  {
    hide Lex, ParseFrom, IsBlank, ParseSegment, Invokes, Assigns;
    OperationsAreParsed(Lex(source).value, [], None);
    forall op | op in Parse(source).value
      ensures exists k :: Invokes([op.executable] + op.arguments, k, op.action)
    {
      var segment :| ParseSegment(segment) == Ok(op);
      SegmentsAreClassified(segment, op);
    }
  }

  // Refusals

  /** How the word at position `k`, behind permitted wrappers, keeps a command from being found. */
  predicate NoCommandAt(segment: seq<Token>, k: nat, e: CommandError)
    requires k < |segment|
  {
    var words := Values(segment);
    var name := ExecutableName(words[k]);
    if name in SHELLS then e == CommandError(UnsupportedSyntax, segment[k].start)
    else if name in UNSUPPORTED then e == CommandError(UnsupportedOperation, segment[k].start)
    else
      && name in WRAPPERS
      && if k + 1 == |segment| then e == CommandError(UnsupportedOperation, segment[k].start)
         else !WrapsAt(words, k) && e == CommandError(UnsupportedOperation, segment[k + 1].start)
  }

  /** The first word behind a subcommand that makes a reset hard or a push forced. */
  predicate FirstOption(words: seq<string>, k: nat, j: nat)
    requires k < |words|
  {
    var sub := Subcommand(words, k);
    && k + 2 <= j < |words|
    && ((sub == "reset" && MakesHard(words[j])) || (sub == "push" && MakesForced(words[j])))
    && forall i :: k + 2 <= i < j ==>
          !(sub == "reset" && MakesHard(words[i])) && !(sub == "push" && MakesForced(words[i]))
  }

  /** How the command at position `k` is refused. */
  ghost predicate CommandRefused(segment: seq<Token>, k: nat, e: CommandError)
    requires k < |segment|
  {
    var words := Values(segment);
    if ExecutableName(words[k]) in STATEFUL then e == CommandError(UnsupportedOperation, segment[k].start)
    else exists j: nat :: FirstOption(words, k, j) && e == CommandError(UnsupportedOperation, segment[j].start)
  }

  predicate ReachedAt(words: seq<string>, from: nat, k: nat) {
    from <= k < |words| && forall i :: from <= i < k ==> WrapsAt(words, i)
  }

  predicate BadFirstWord(segment: seq<Token>)
    requires segment != []
  {
    (segment[0].value in CONTROL_WORDS && !segment[0].quoted) || Assigns(segment[0].value)
  }

  /** How a segment is refused: by its first word, by what stands where a command is looked for,
      by the command, or for want of a name. */
  ghost predicate SegmentRefused(segment: seq<Token>, e: CommandError)
    requires segment != []
  {
    var words := Values(segment);
    if BadFirstWord(segment) then e == CommandError(UnsupportedSyntax, segment[0].start)
    else
      || (exists k: nat :: ReachedAt(words, 0, k) && NoCommandAt(segment, k, e))
      || (exists k: nat :: CommandAt(words, 0, k) && CommandRefused(segment, k, e))
      || (words[0] == "" && e == CommandError(MalformedSyntax, segment[0].start) &&
          exists k: nat, action :: Invokes(words, k, action))
  }

  lemma {:induction false} UnwrapRefuses(tokens: seq<Token>, index: nat, e: CommandError)
    requires index < |tokens|
    ensures Unwrap(tokens, index) == Err(e) <==>
            exists k: nat :: ReachedAt(Values(tokens), index, k) && NoCommandAt(tokens, k, e)
    decreases |tokens| - index
  {
    hide ExecutableName, IsShellInterpreter, IsUnsupportedWrapper, IsWrapper, StartsWith, Begins;
    var words := Values(tokens);
    var name := ExecutableName(tokens[index].value);
    ShellsByName(name);
    UnsupportedByName(name);
    WrappersByName(name);
    WrappersAreNoOthers(name);
    assert ReachedAt(words, index, index);
    if index + 1 < |tokens| {
      BeginsIsPrefix(words[index + 1], "-");
      UnwrapRefuses(tokens, index + 1, e);
      if WrapsAt(words, index) {
        assert forall k :: ReachedAt(words, index + 1, k) ==> ReachedAt(words, index, k);
        assert !NoCommandAt(tokens, index, e);
      }
    }
  }

  lemma {:induction false} FirstFound(tokens: seq<Token>, action: GitAction, j: nat)
    requires j < |tokens| && IsUnsupportedOption(action, tokens[j].value)
    requires forall i :: 0 <= i < j ==> !IsUnsupportedOption(action, tokens[i].value)
    ensures FindUnsupported(tokens, action) == Some(tokens[j])
  {
    hide IsUnsupportedOption;
    if j > 0 {
      assert forall i :: 0 <= i < j - 1 ==> tokens[1..][i] == tokens[i + 1];
      FirstFound(tokens[1..], action, j - 1);
    }
  }

  lemma {:induction false} FoundFirst(tokens: seq<Token>, action: GitAction) returns (j: nat)
    requires FindUnsupported(tokens, action).Some?
    ensures j < |tokens| && FindUnsupported(tokens, action) == Some(tokens[j])
    ensures IsUnsupportedOption(action, tokens[j].value)
    ensures forall i :: 0 <= i < j ==> !IsUnsupportedOption(action, tokens[i].value)
  {
    hide IsUnsupportedOption;
    if IsUnsupportedOption(action, tokens[0].value) {
      j := 0;
    } else {
      j := FoundFirst(tokens[1..], action);
      assert forall i :: 0 < i < |tokens| ==> tokens[i] == tokens[1..][i - 1];
      j := j + 1;
    }
  }

  /** The options that are looked for behind a subcommand. */
  lemma OptionsByName(action: GitAction, word: string)
    ensures IsUnsupportedOption(action, word) <==>
            (action == Reset && MakesHard(word)) || (action == Push && MakesForced(word))
  {
    hide MakesHard, MakesForced, IsHardResetOption, IsForceOption;
    HardByAbbreviation(word);
    ForcedBySpelling(word);
  }

  lemma ClassifyRefuses(tokens: seq<Token>, k: nat, e: CommandError)
    requires k < |tokens|
    ensures Classify(tokens, k) == Err(e) <==> CommandRefused(tokens, k, e)
  {
    hide ExecutableName, IsStatefulBuiltin, IsGit, MakesHard, MakesForced, FindUnsupported, GitSubcommand;
    hide IsUnsupportedOption;
    var words := Values(tokens);
    StatefulByName(ExecutableName(words[k]));
    WrappersByName(ExecutableName(words[k]));
    if k + 1 < |words| && ExecutableName(words[k]) == "git" && ExecutableName(words[k]) !in STATEFUL {
      SubcommandsByName(words[k + 1]);
      var found := GitSubcommand(words[k + 1]);
      var rest := tokens[k + 2..];
      assert forall i :: k + 2 <= i < |words| ==> words[i] == rest[i - k - 2].value;
      forall action, i | k + 2 <= i < |words|
        ensures IsUnsupportedOption(action, words[i]) <==>
                (action == Reset && MakesHard(words[i])) || (action == Push && MakesForced(words[i]))
      {
        OptionsByName(action, words[i]);
      }
      if found.Some? && FindUnsupported(rest, found.value).Some? {
        var j := FoundFirst(rest, found.value);
        assert words[k + 2 + j] == rest[j].value && tokens[k + 2 + j] == rest[j];
        assert FirstOption(words, k, k + 2 + j);
      }
      if j: nat :| FirstOption(words, k, j) && e == CommandError(UnsupportedOperation, tokens[j].start) {
        assert words[j] == rest[j - k - 2].value;
        FirstFound(rest, found.value, j - k - 2);
      }
    }
  }

  /** Every refusal of a segment, with its kind and the word it is about. */
  lemma SegmentRefusals(segment: seq<Token>, e: CommandError)
    requires segment != []
    ensures ParseSegment(segment) == Err(e) <==> SegmentRefused(segment, e)
  {
    hide Unwrap, Classify, CommandAt, ActsAs, IsAssignmentWord, IsControlWord, Assigns, NoCommandAt, CommandRefused;
    hide ReachedAt;
    var words := Values(segment);
    ControlWordsByName(segment[0]);
    AssignmentsByLetter(segment[0].value);
    UnwrapRefuses(segment, 0, e);
    if Unwrap(segment, 0).Ok? {
      var k := Unwrap(segment, 0).value;
      UnwrapsToCommand(segment, 0, k);
      ClassifyRefuses(segment, k, e);
      forall action ensures Classify(segment, k) == Ok(action) <==> ActsAs(words, k, action) {
        ClassifiesAs(segment, k, action);
      }
      if Classify(segment, k).Ok? { assert Invokes(words, k, Classify(segment, k).value); }
      forall other: nat | CommandAt(words, 0, other) ensures other == k { UnwrapsToCommand(segment, 0, other); }
      assert CommandRefused(segment, k, e) <==>
             exists other: nat :: CommandAt(words, 0, other) && CommandRefused(segment, other, e);
    } else {
      forall other: nat ensures !CommandAt(words, 0, other) { UnwrapsToCommand(segment, 0, other); }
    }
  }

  // Lines

  /** The words that end in front of token `i`. */
  function WordsBefore(tokens: seq<Token>, i: nat): seq<Token>
    requires i <= |tokens|
  {
    if i == 0 || tokens[i - 1].kind.Separator? then [] else WordsBefore(tokens, i - 1) + [tokens[i - 1]]
  }

  /** How a line fails at token `i`, or at its end: a separator without words in front, a last
      operator without words behind, or words that are refused. */
  ghost predicate FailsAt(tokens: seq<Token>, i: nat, e: CommandError) {
    && i <= |tokens| && (i < |tokens| ==> tokens[i].kind.Separator?)
    && var words := WordsBefore(tokens, i);
       if words != [] then SegmentRefused(words, e)
       else if i < |tokens| then e == CommandError(MalformedSyntax, tokens[i].start)
       else i > 0 && tokens[i - 1].kind.separator != Sequence && e == CommandError(MalformedSyntax, tokens[i - 1].start)
  }

  /** The first failure of a line from token `from` on. */
  ghost predicate FirstFailure(tokens: seq<Token>, from: nat, i: nat, e: CommandError) {
    from <= i && FailsAt(tokens, i, e) && forall m, other :: from <= m < i ==> !FailsAt(tokens, m, other)
  }

  ghost predicate FailsFrom(tokens: seq<Token>, from: nat, e: CommandError) {
    exists i :: FirstFailure(tokens, from, i, e)
  }

  function TrailingAt(tokens: seq<Token>, i: nat): Option<(Separator, nat)>
    requires i <= |tokens|
  {
    if i > 0 && tokens[i - 1].kind.Separator? then Some((tokens[i - 1].kind.separator, tokens[i - 1].start)) else None
  }

  lemma {:induction false} LineFailures(tokens: seq<Token>, i: nat, e: CommandError)
    requires i <= |tokens|
    ensures ParseFrom(tokens[i..], WordsBefore(tokens, i), TrailingAt(tokens, i)) == Err(e) <==>
            FailsFrom(tokens, i, e)
    decreases |tokens| - i
  {
    hide ParseSegment, SegmentRefused;
    var words := WordsBefore(tokens, i);
    if words != [] {
      SegmentRefusals(words, e);
      if ParseSegment(words).Err? { SegmentRefusals(words, ParseSegment(words).error); }
      if ParseSegment(words).Ok? {
        forall other ensures !SegmentRefused(words, other) { SegmentRefusals(words, other); }
      }
    }
    if i == |tokens| {
      assert FailsAt(tokens, i, e) <==> FirstFailure(tokens, i, i, e);
    } else {
      assert tokens[i..][0] == tokens[i] && tokens[i..][1..] == tokens[i + 1..];
      LineFailures(tokens, i + 1, e);
      FailureMoves(tokens, i, e);
      if tokens[i].kind.Word? {
        assert WordsBefore(tokens, i + 1) == words + [tokens[i]] && TrailingAt(tokens, i + 1) == None;
        assert forall other :: !FailsAt(tokens, i, other);
      } else {
        assert WordsBefore(tokens, i + 1) == [];
        assert TrailingAt(tokens, i + 1) == Some((tokens[i].kind.separator, tokens[i].start));
        if words == [] {
          assert FailsAt(tokens, i, CommandError(MalformedSyntax, tokens[i].start));
        } else if ParseSegment(words).Err? {
          assert FailsAt(tokens, i, ParseSegment(words).error);
        }
      }
    }
  }

  /** The first failure is here or later. */
  lemma FailureMoves(tokens: seq<Token>, i: nat, e: CommandError)
    requires i < |tokens|
    ensures FailsFrom(tokens, i, e) <==>
            FailsAt(tokens, i, e) || ((forall other :: !FailsAt(tokens, i, other)) && FailsFrom(tokens, i + 1, e))
  {
    hide FailsAt;
    if FailsAt(tokens, i, e) { assert FirstFailure(tokens, i, i, e); }
    if m: nat :| FirstFailure(tokens, i, m, e) {
      if m > i { assert FirstFailure(tokens, i + 1, m, e); }
    }
    if (forall other :: !FailsAt(tokens, i, other)) && FailsFrom(tokens, i + 1, e) {
      var m: nat :| FirstFailure(tokens, i + 1, m, e);
      assert FirstFailure(tokens, i, m, e);
    }
  }

  /** Every failure of a source: nothing but whitespace is an empty command; otherwise the lexer
      fails, or the first failure of its line is reported. */
  lemma FailuresInFull(source: string, e: CommandError)
    ensures Parse(source) == Err(e) <==>
            if IsBlank(source) then e == CommandError(EmptyCommand, 0)
            else if Lex(source).Err? then e == Lex(source).error
            else FailsFrom(Lex(source).value, 0, e)
  {
    hide LexFrom, ParseFrom, FailsFrom, IsBlank;
    if !IsBlank(source) {
      ParseOfText(source);
      if Lex(source).Ok? {
        var tokens := Lex(source).value;
        assert tokens[0..] == tokens;
        LineFailures(tokens, 0, e);
      }
    }
  }
}
