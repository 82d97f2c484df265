/** Semantic validation of a parsed policy: the first violation in source order is reported. */
module Validation {
  import opened Common
  import opened Actions
  import opened Characters
  import opened FieldPaths
  import opened YamlEvents
  import opened YamlReader
  import opened PolicySyntax
  import NetworkHost
  import PathPattern

  datatype ErrorKind =
    | UnsupportedVersion
    | InvalidRuleId
    | DuplicateRuleId
    | EmptyActions
    | IncompatibleAction
    | InvalidPathPattern
    | InvalidExecutable
    | InvalidArgument
    | InvalidHost
    | InvalidPort

  datatype ValidationError = ValidationError(
    kind: ErrorKind,
    path: string,
    location: SourceLocation,
    original: Option<SourceLocation>)

  datatype ValidatedSelector<I> =
    | ValidFile(pattern: string, segments: seq<PathPattern.PathSegment>)
    | ValidCommand(executable: string, arguments: Option<seq<string>>)
    | ValidGit(pattern: string, segments: seq<PathPattern.PathSegment>)
    | ValidNetwork(originalHost: string, host: NetworkHost.Host<I>, port: Option<nat>)

  datatype ValidatedRule<I> = ValidatedRule(
    id: string,
    description: Option<string>,
    effect: Effect,
    actions: seq<Action>,
    resource: ValidatedSelector<I>)

  datatype ValidatedPolicy<I> = ValidatedPolicy(
    version: nat,
    defaults: Option<PolicyDefaults>,
    rules: seq<ValidatedRule<I>>,
    locations: Locations)

  const NUL := '\U{0}'
  const SUPPORTED_VERSION: nat := 1

  predicate ValidId(id: string) {
    !IsBlank(id) && forall i :: 0 <= i < |id| ==> !IsControl(id[i])
  }

  function SelectorKind(selector: ResourceSelector): ResourceKind {
    match selector
    case FileSelector(_) => FileKind
    case CommandSelector(_, _) => CommandKind
    case GitSelector(_) => GitKind
    case NetworkSelector(_, _) => NetworkKind
  }

  // What a policy must satisfy

  /** The conditions on a policy, one by one. The first field of a selector is its pattern,
      repository, executable or host. */
  datatype Check =
    | VersionCheck
    | IdCheck(rule: nat)
    | UniqueCheck(rule: nat)
    | ActionsCheck(rule: nat)
    | ActionCheck(rule: nat, index: nat)
    | SelectorCheck(rule: nat)
    | ArgumentCheck(rule: nat, index: nat)
    | PortCheck(rule: nat)
  {
    /** Rule zero is the document itself; within a rule the checks are staged. */
    function Rank(): (nat, nat, nat) {
      match this
      case VersionCheck => (0, 0, 0)
      case IdCheck(i) => (i + 1, 0, 0)
      case UniqueCheck(i) => (i + 1, 1, 0)
      case ActionsCheck(i) => (i + 1, 2, 0)
      case ActionCheck(i, j) => (i + 1, 3, j)
      case SelectorCheck(i) => (i + 1, 4, 0)
      case ArgumentCheck(i, j) => (i + 1, 5, j)
      case PortCheck(i) => (i + 1, 6, 0)
    }
  }

  predicate Precedes(a: Check, b: Check) {
    var (i, s, j) := a.Rank();
    var (i', s', j') := b.Rank();
    i < i' || (i == i' && (s < s' || (s == s' && j < j')))
  }

  predicate SelectorFails<I>(selector: ResourceSelector, ip: NetworkHost.IpReader<I>) {
    match selector
    case FileSelector(pattern) => PathPattern.Parse(pattern).None?
    case GitSelector(repository) => PathPattern.Parse(repository).None?
    case CommandSelector(executable, _) => IsBlank(executable) || NUL in executable
    case NetworkSelector(host, _) => NetworkHost.Parse(host, ip).None?
  }

  predicate RuleViolates<I>(rules: seq<PolicyRule>, check: Check, ip: NetworkHost.IpReader<I>)
    requires !check.VersionCheck?
  {
    && check.rule < |rules|
    && var rule := rules[check.rule];
       match check
       case IdCheck(_) => !ValidId(rule.id)
       case UniqueCheck(i) => exists k :: 0 <= k < i && rules[k].id == rule.id
       case ActionsCheck(_) => rule.actions == []
       case ActionCheck(_, j) => j < |rule.actions| && rule.actions[j].Kind() != SelectorKind(rule.resource)
       case SelectorCheck(_) => SelectorFails(rule.resource, ip)
       case ArgumentCheck(_, j) =>
         && rule.resource.CommandSelector? && rule.resource.arguments.Some?
         && j < |rule.resource.arguments.value| && NUL in rule.resource.arguments.value[j]
       case PortCheck(_) => rule.resource.NetworkSelector? && rule.resource.port == Some(0)
  }

  predicate Violates<I>(policy: ParsedPolicy, check: Check, ip: NetworkHost.IpReader<I>) {
    if check.VersionCheck? then policy.version != SUPPORTED_VERSION else RuleViolates(policy.rules, check, ip)
  }

  ghost predicate FirstViolation<I>(policy: ParsedPolicy, check: Check, ip: NetworkHost.IpReader<I>) {
    Violates(policy, check, ip) && forall other :: Precedes(other, check) ==> !Violates(policy, other, ip)
  }

  ghost predicate IsValid<I>(policy: ParsedPolicy, ip: NetworkHost.IpReader<I>) {
    forall check :: !Violates(policy, check, ip)
  }

  // How a violation is reported

  function KindOf(rules: seq<PolicyRule>, check: Check): ErrorKind
    requires !check.VersionCheck? ==> check.rule < |rules|
  {
    match check
    case VersionCheck => UnsupportedVersion
    case IdCheck(_) => InvalidRuleId
    case UniqueCheck(_) => DuplicateRuleId
    case ActionsCheck(_) => EmptyActions
    case ActionCheck(_, _) => IncompatibleAction
    case SelectorCheck(i) =>
      (match rules[i].resource
       case CommandSelector(_, _) => InvalidExecutable
       case NetworkSelector(_, _) => InvalidHost
       case _ => InvalidPathPattern)
    case ArgumentCheck(_, _) => InvalidArgument
    case PortCheck(_) => InvalidPort
  }

  function FirstField(selector: ResourceSelector): string {
    match selector
    case FileSelector(_) => "pattern"
    case CommandSelector(_, _) => "executable"
    case GitSelector(_) => "repository"
    case NetworkSelector(_, _) => "host"
  }

  function RulePath(i: nat): string {
    ItemPath("rules", i)
  }

  function ResourcePath(i: nat): string {
    RulePath(i) + ".resource"
  }

  function ArgumentField(j: nat): string {
    ItemPath("arguments", j)
  }

  function PathOf(rules: seq<PolicyRule>, check: Check): string
    requires !check.VersionCheck? ==> check.rule < |rules|
  {
    match check
    case VersionCheck => "version"
    case IdCheck(i) => RulePath(i) + ".id"
    case UniqueCheck(i) => RulePath(i) + ".id"
    case ActionsCheck(i) => RulePath(i) + ".actions"
    case ActionCheck(i, j) => ItemPath(RulePath(i) + ".actions", j)
    case SelectorCheck(i) => ResourcePath(i) + "." + FirstField(rules[i].resource)
    case ArgumentCheck(i, j) => ResourcePath(i) + "." + ArgumentField(j)
    case PortCheck(i) => ResourcePath(i) + "." + "port"
  }

  /** The earliest rule with an identifier. */
  function EarliestWith(rules: seq<PolicyRule>, id: string): nat {
    if rules == [] || rules[0].id == id then 0 else 1 + EarliestWith(rules[1..], id)
  }

  function Locate(locations: Locations, path: string): Option<SourceLocation> {
    if path in locations then Some(locations[path]) else None
  }

  function LocateOrStart(locations: Locations, path: string): SourceLocation {
    match Locate(locations, path)
    case Some(location) => location
    case None => SourceLocation(1, 1)
  }

  function Report(policy: ParsedPolicy, check: Check): ValidationError
    requires !check.VersionCheck? ==> check.rule < |policy.rules|
  {
    var path := PathOf(policy.rules, check);
    ValidationError(
      KindOf(policy.rules, check),
      path,
      LocateOrStart(policy.locations, path),
      if check.UniqueCheck?
      then Locate(policy.locations, RulePath(EarliestWith(policy.rules, policy.rules[check.rule].id)) + ".id")
      else None)
  }

  /** What a selector is validated to. */
  ghost predicate SelectorAgrees<I>(
    selector: ResourceSelector, valid: ValidatedSelector<I>, ip: NetworkHost.IpReader<I>)
  {
    match selector
    case FileSelector(pattern) =>
      valid.ValidFile? && valid.pattern == pattern && PathPattern.Parse(pattern) == Some(valid.segments)
    case GitSelector(repository) =>
      valid.ValidGit? && valid.pattern == repository && PathPattern.Parse(repository) == Some(valid.segments)
    case CommandSelector(executable, arguments) => valid == ValidCommand(executable, arguments)
    case NetworkSelector(host, port) =>
      && valid.ValidNetwork? && valid.originalHost == host && NetworkHost.Parse(host, ip) == Some(valid.host)
      && valid.port == port
  }

  ghost predicate RuleAgrees<I>(rule: PolicyRule, valid: ValidatedRule<I>, ip: NetworkHost.IpReader<I>) {
    && valid.id == rule.id && valid.description == rule.description
    && valid.effect == rule.effect && valid.actions == rule.actions
    && SelectorAgrees(rule.resource, valid.resource, ip)
  }

  ghost predicate PolicyAgrees<I>(policy: ParsedPolicy, valid: ValidatedPolicy<I>, ip: NetworkHost.IpReader<I>) {
    && valid.version == policy.version && valid.defaults == policy.defaults && valid.locations == policy.locations
    && |valid.rules| == |policy.rules|
    && forall i :: 0 <= i < |policy.rules| ==> RuleAgrees(policy.rules[i], valid.rules[i], ip)
  }

  /** The selector that a validated one was written as. */
  function Written<I>(valid: ValidatedSelector<I>): ResourceSelector {
    match valid
    case ValidFile(pattern, _) => FileSelector(pattern)
    case ValidCommand(executable, arguments) => CommandSelector(executable, arguments)
    case ValidGit(pattern, _) => GitSelector(pattern)
    case ValidNetwork(originalHost, _, port) => NetworkSelector(originalHost, port)
  }

  /** A validated policy keeps the policy it came from, down to the places, and its patterns are
      the texts that their segments spell. */
  lemma NothingIsLost<I>(policy: ParsedPolicy, valid: ValidatedPolicy<I>, ip: NetworkHost.IpReader<I>)
    requires PolicyAgrees(policy, valid, ip)
    ensures |valid.rules| == |policy.rules|
    ensures policy == ParsedPolicy(
                        valid.version, valid.defaults,
                        seq(|valid.rules|, i requires 0 <= i < |valid.rules| =>
                          var rule := valid.rules[i];
                          PolicyRule(rule.id, rule.description, rule.effect, rule.actions, Written(rule.resource))),
                        valid.locations)
    ensures forall i :: 0 <= i < |valid.rules| ==>
              var resource := valid.rules[i].resource;
              resource.ValidFile? || resource.ValidGit? ==> PathPattern.Render(resource.segments) == resource.pattern
  {
    hide PathPattern.Parse, PathPattern.Render, NetworkHost.Parse;
    forall i | 0 <= i < |valid.rules|
      ensures valid.rules[i].resource.ValidFile? || valid.rules[i].resource.ValidGit? ==>
                PathPattern.Render(valid.rules[i].resource.segments) == valid.rules[i].resource.pattern
      ensures Written(valid.rules[i].resource) == policy.rules[i].resource
    {
      assert RuleAgrees(policy.rules[i], valid.rules[i], ip);
      var resource := valid.rules[i].resource;
      if resource.ValidFile? || resource.ValidGit? { PathPattern.ParseIsSound(resource.pattern); }
    }
  }

  // Facts about the order and about duplicates

  /** The order is total, so the first violation is unique. */
  lemma FirstViolationIsUnique<I>(policy: ParsedPolicy, a: Check, b: Check, ip: NetworkHost.IpReader<I>)
    requires FirstViolation(policy, a, ip) && FirstViolation(policy, b, ip)
    ensures a == b
  {
    hide Violates;
    assert a == b || Precedes(a, b) || Precedes(b, a);
  }

  lemma {:induction false} EarliestIsFirst(rules: seq<PolicyRule>, id: string)
    ensures var k := EarliestWith(rules, id);
            && k <= |rules| && (k < |rules| ==> rules[k].id == id)
            && forall m :: 0 <= m < k ==> rules[m].id != id
  {
    if rules != [] && rules[0].id != id {
      EarliestIsFirst(rules[1..], id);
      var k := EarliestWith(rules[1..], id);
      forall m | 0 <= m < k + 1 ensures rules[m].id != id {
        if m > 0 { assert rules[m] == rules[1..][m - 1]; }
      }
    }
  }

  /** A reported duplicate refers to the one earlier rule with that identifier. */
  lemma DuplicateHasOneOriginal<I>(policy: ParsedPolicy, i: nat, ip: NetworkHost.IpReader<I>)
    requires FirstViolation(policy, UniqueCheck(i), ip)
    ensures i < |policy.rules|
    ensures var k := EarliestWith(policy.rules, policy.rules[i].id);
            && k < i && policy.rules[k].id == policy.rules[i].id
            && forall m :: 0 <= m < i && policy.rules[m].id == policy.rules[i].id ==> m == k
  {
    var rules := policy.rules;
    var k := EarliestWith(rules, rules[i].id);
    EarliestIsFirst(rules, rules[i].id);
    var other :| 0 <= other < i && rules[other].id == rules[i].id;
    forall m | 0 <= m < i && rules[m].id == rules[i].id ensures m == k {
      if m > k {
        assert Precedes(UniqueCheck(m), UniqueCheck(i));
        assert RuleViolates(rules, UniqueCheck(m), ip);
      }
    }
  }

  // Validity written out

  /** Text with a character that is no whitespace. */
  predicate SaysSomething(text: string) {
    exists i :: 0 <= i < |text| && !IsWhitespace(text[i])
  }

  /** Neither below the space nor among the delete and the characters behind it. */
  predicate NoControls(text: string) {
    forall i :: 0 <= i < |text| ==> text[i] >= ' ' && !('\U{7F}' <= text[i] <= '\U{9F}')
  }

  /** An action of the family that a selector is about. */
  predicate Fits(action: Action, selector: ResourceSelector) {
    || (action.File? && selector.FileSelector?)
    || (action.Execute? && selector.CommandSelector?)
    || (action.Git? && selector.GitSelector?)
    || (action.Connect? && selector.NetworkSelector?)
  }

  predicate SoundSelector<I>(selector: ResourceSelector, ip: NetworkHost.IpReader<I>) {
    match selector
    case FileSelector(pattern) => PathPattern.Parse(pattern).Some?
    case GitSelector(repository) => PathPattern.Parse(repository).Some?
    case CommandSelector(executable, arguments) =>
      && SaysSomething(executable) && '\0' !in executable
      && (arguments.Some? ==> forall i :: 0 <= i < |arguments.value| ==> '\0' !in arguments.value[i])
    case NetworkSelector(host, port) => NetworkHost.Parse(host, ip).Some? && port != Some(0)
  }

  /** The conditions on one rule, without their order: an identifier that says something without
      control characters, actions that fit the selector, and a sound selector. */
  predicate RuleIsSound<I>(rule: PolicyRule, ip: NetworkHost.IpReader<I>) {
    && SaysSomething(rule.id) && NoControls(rule.id)
    && rule.actions != [] && (forall j :: 0 <= j < |rule.actions| ==> Fits(rule.actions[j], rule.resource))
    && SoundSelector(rule.resource, ip)
  }

  lemma FitsByKind(action: Action, selector: ResourceSelector)
    ensures Fits(action, selector) <==> action.Kind() == SelectorKind(selector)
  {
  }

  lemma IdByCharacters(id: string)
    ensures ValidId(id) <==> SaysSomething(id) && NoControls(id)
  {
    hide IsWhitespace;
    assert forall i :: 0 <= i < |id| ==> (IsControl(id[i]) <==> id[i] < ' ' || '\U{7F}' <= id[i] <= '\U{9F}');
  }

  /** What a violation on rule `i` is, written out; `j` is the action or argument it is about. */
  predicate Wrong<I>(rules: seq<PolicyRule>, kind: ErrorKind, i: nat, j: nat, ip: NetworkHost.IpReader<I>)
    requires i < |rules|
  {
    var rule := rules[i];
    match kind
    case UnsupportedVersion => false
    case InvalidRuleId => !SaysSomething(rule.id) || !NoControls(rule.id)
    case DuplicateRuleId => exists k :: 0 <= k < i && rules[k].id == rule.id
    case EmptyActions => rule.actions == []
    case IncompatibleAction => j < |rule.actions| && !Fits(rule.actions[j], rule.resource)
    case InvalidPathPattern =>
      || (rule.resource.FileSelector? && PathPattern.Parse(rule.resource.pattern).None?)
      || (rule.resource.GitSelector? && PathPattern.Parse(rule.resource.repository).None?)
    case InvalidExecutable =>
      rule.resource.CommandSelector?
      && (!SaysSomething(rule.resource.executable) || '\0' in rule.resource.executable)
    case InvalidArgument =>
      && rule.resource.CommandSelector? && rule.resource.arguments.Some?
      && j < |rule.resource.arguments.value| && '\0' in rule.resource.arguments.value[j]
    case InvalidHost => rule.resource.NetworkSelector? && NetworkHost.Parse(rule.resource.host, ip).None?
    case InvalidPort => rule.resource.NetworkSelector? && rule.resource.port == Some(0)
  }

  /** The field a violation is reported at. */
  function Where(rules: seq<PolicyRule>, kind: ErrorKind, i: nat, j: nat): string
    requires i < |rules|
  {
    var rule := "rules[" + Decimal(i) + "]";
    match kind
    case UnsupportedVersion => "version"
    case InvalidRuleId => rule + ".id"
    case DuplicateRuleId => rule + ".id"
    case EmptyActions => rule + ".actions"
    case IncompatibleAction => rule + ".actions[" + Decimal(j) + "]"
    case InvalidPathPattern =>
      if rules[i].resource.FileSelector? then rule + ".resource.pattern" else rule + ".resource.repository"
    case InvalidExecutable => rule + ".resource.executable"
    case InvalidArgument => rule + ".resource.arguments[" + Decimal(j) + "]"
    case InvalidHost => rule + ".resource.host"
    case InvalidPort => rule + ".resource.port"
  }

  /** The kinds of error that a check stands for. */
  predicate ErrorOf(kind: ErrorKind, check: Check) {
    match kind
    case UnsupportedVersion => check.VersionCheck?
    case InvalidRuleId => check.IdCheck?
    case DuplicateRuleId => check.UniqueCheck?
    case EmptyActions => check.ActionsCheck?
    case IncompatibleAction => check.ActionCheck?
    case InvalidArgument => check.ArgumentCheck?
    case InvalidPort => check.PortCheck?
    case _ => check.SelectorCheck?
  }

  function IndexOf(check: Check): nat {
    match check
    case ActionCheck(_, j) => j
    case ArgumentCheck(_, j) => j
    case _ => 0
  }

  /** What a check says about a rule, written out. */
  lemma ViolationsInFull<I>(policy: ParsedPolicy, check: Check, ip: NetworkHost.IpReader<I>)
    requires !check.VersionCheck? && check.rule < |policy.rules|
    ensures Violates(policy, check, ip)
            <==> Wrong(policy.rules, KindOf(policy.rules, check), check.rule, IndexOf(check), ip)
  {
    hide IsBlank, PathPattern.Parse, NetworkHost.Parse, NoControls, ValidId, Fits, SelectorKind, SaysSomething;
    var rule := policy.rules[check.rule];
    if check.IdCheck? {
      IdByCharacters(rule.id);
    } else if check.ActionCheck? && check.index < |rule.actions| {
      FitsByKind(rule.actions[check.index], rule.resource);
    } else if check.SelectorCheck? && rule.resource.CommandSelector? {
      BlankSaysNothing(rule.resource.executable);
    }
  }

  lemma RuleText(i: nat)
    ensures RulePath(i) == "rules[" + Decimal(i) + "]"
  {
    hide Decimal;
  }

  lemma ResourceText(i: nat, field: string)
    ensures ResourcePath(i) + "." + field == RulePath(i) + (".resource." + field)
  {
    hide RulePath;
    assert ".resource" + "." == ".resource.";
  }

  lemma ActionText(parent: string, j: nat)
    ensures ItemPath(parent + ".actions", j) == parent + ".actions[" + Decimal(j) + "]"
  {
    hide Decimal;
  }

  lemma ArgumentText(parent: string, j: nat)
    ensures parent + (".resource." + ArgumentField(j)) == parent + ".resource.arguments[" + Decimal(j) + "]"
  {
    hide Decimal;
  }

  lemma SelectorText(policy: ParsedPolicy, i: nat)
    requires i < |policy.rules|
    ensures PathOf(policy.rules, SelectorCheck(i))
            == Where(policy.rules, KindOf(policy.rules, SelectorCheck(i)), i, 0)
  {
    hide Decimal, RulePath, ResourcePath, ItemPath;
    var field := FirstField(policy.rules[i].resource);
    RuleText(i);
    ResourceText(i, field);
  }

  /** Where a check is reported, written out. */
  lemma PathsInFull(policy: ParsedPolicy, check: Check)
    requires !check.VersionCheck? && check.rule < |policy.rules|
    ensures PathOf(policy.rules, check)
            == Where(policy.rules, KindOf(policy.rules, check), check.rule, IndexOf(check))
  {
    hide Decimal, RulePath, ResourcePath, ArgumentField, ItemPath;
    var i := check.rule;
    if check.SelectorCheck? {
      SelectorText(policy, i);
    } else {
      RuleText(i);
      match check
      case ActionCheck(_, j) => ActionText(RulePath(i), j);
      case ArgumentCheck(_, j) =>
        ResourceText(i, ArgumentField(j));
        ArgumentText(RulePath(i), j);
      case PortCheck(_) => ResourceText(i, "port");
      case _ =>
    }
  }

  /** What a check says about a rule, written out, and where it is reported. */
  lemma ChecksInFull<I>(policy: ParsedPolicy, check: Check, ip: NetworkHost.IpReader<I>)
    requires !check.VersionCheck? && check.rule < |policy.rules|
    ensures var kind := KindOf(policy.rules, check);
            && ErrorOf(kind, check)
            && (Violates(policy, check, ip) <==> Wrong(policy.rules, kind, check.rule, IndexOf(check), ip))
            && PathOf(policy.rules, check) == Where(policy.rules, kind, check.rule, IndexOf(check))
  {
    hide Violates, Wrong, PathOf, Where, IndexOf;
    ViolationsInFull(policy, check, ip);
    PathsInFull(policy, check);
  }

  lemma BlankSaysNothing(text: string)
    ensures IsBlank(text) <==> !SaysSomething(text)
  {
    hide IsWhitespace;
  }

  /** A policy is valid exactly when its version is one, its identifiers are distinct and every
      rule is sound. */
  lemma ValidityInFull<I>(policy: ParsedPolicy, ip: NetworkHost.IpReader<I>)
    ensures IsValid(policy, ip) <==>
            && policy.version == 1
            && (forall i :: 0 <= i < |policy.rules| ==> RuleIsSound(policy.rules[i], ip))
            && (forall i, k :: 0 <= k < i < |policy.rules| ==> policy.rules[k].id != policy.rules[i].id)
  {
    hide RuleViolates, RuleIsSound;
    var rules := policy.rules;
    if IsValid(policy, ip) {
      assert !Violates(policy, VersionCheck, ip);
      forall i | 0 <= i < |rules| ensures RuleIsSound(rules[i], ip) { NoViolationIsSound(policy, i, ip); }
      forall i, k | 0 <= k < i < |rules| ensures rules[k].id != rules[i].id {
        assert !Violates(policy, UniqueCheck(i), ip);
        ChecksInFull(policy, UniqueCheck(i), ip);
      }
    } else {
      var check :| Violates(policy, check, ip);
      if !check.VersionCheck? {
        RuleInRange(policy, check, ip);
        if check.UniqueCheck? {
          ChecksInFull(policy, check, ip);
        } else {
          ViolationIsUnsound(policy, check, ip);
        }
      }
    }
  }

  lemma RuleInRange<I>(policy: ParsedPolicy, check: Check, ip: NetworkHost.IpReader<I>)
    requires Violates(policy, check, ip) && !check.VersionCheck?
    ensures check.rule < |policy.rules|
  {
  }

  lemma ViolationIsUnsound<I>(policy: ParsedPolicy, check: Check, ip: NetworkHost.IpReader<I>)
    requires Violates(policy, check, ip) && !check.VersionCheck? && !check.UniqueCheck?
    ensures check.rule < |policy.rules| && !RuleIsSound(policy.rules[check.rule], ip)
  {
    hide RuleViolates, SaysSomething, NoControls, Fits, PathPattern.Parse, NetworkHost.Parse, KindOf, PathOf, Where;
    RuleInRange(policy, check, ip);
    ChecksInFull(policy, check, ip);
  }

  lemma NoViolationIsSound<I>(policy: ParsedPolicy, i: nat, ip: NetworkHost.IpReader<I>)
    requires i < |policy.rules| && IsValid(policy, ip)
    ensures RuleIsSound(policy.rules[i], ip)
  {
    hide Violates, Wrong, RuleIsSound;
    forall kind: ErrorKind, j: nat ensures !Wrong(policy.rules, kind, i, j, ip) {
      if kind == UnsupportedVersion {
        VersionIsNotOfARule(policy.rules, i, j, ip);
      } else if Wrong(policy.rules, kind, i, j, ip) {
        WrongIsViolation(policy, kind, i, j, ip);
      }
    }
    SoundWhenNothingWrong(policy.rules, i, ip);
  }

  lemma VersionIsNotOfARule<I>(rules: seq<PolicyRule>, i: nat, j: nat, ip: NetworkHost.IpReader<I>)
    requires i < |rules|
    ensures !Wrong(rules, UnsupportedVersion, i, j, ip)
  {
  }

  /** A report, written out: its kind is what is wrong, its path where, its location what was
      recorded for the path, and a duplicate has the location of the first rule with its
      identifier. */
  ghost predicate ReportedAs<I>(
    policy: ParsedPolicy, error: ValidationError, i: nat, j: nat, ip: NetworkHost.IpReader<I>)
  {
    && error.location == (if error.path in policy.locations then policy.locations[error.path] else SourceLocation(1, 1))
    && if error.kind == UnsupportedVersion then policy.version != 1 && error.path == "version" && error.original == None
       else
         && i < |policy.rules| && Wrong(policy.rules, error.kind, i, j, ip)
         && error.path == Where(policy.rules, error.kind, i, j)
         && (error.kind != DuplicateRuleId ==> error.original == None)
         && (error.kind == DuplicateRuleId ==>
               exists k :: OriginalAt(policy.rules, i, k)
                           && error.original == Locate(policy.locations, "rules[" + Decimal(k) + "].id"))
  }

  /** The first rule with the identifier of rule `i`. */
  predicate OriginalAt(rules: seq<PolicyRule>, i: nat, k: nat) {
    k < i < |rules| && rules[k].id == rules[i].id && forall m :: 0 <= m < k ==> rules[m].id != rules[i].id
  }

  /** The order in which a rule is examined: its identifier, its actions, then its resource. */
  function Turn(kind: ErrorKind): nat {
    match kind
    case UnsupportedVersion => 0
    case InvalidRuleId => 1
    case DuplicateRuleId => 2
    case EmptyActions => 3
    case IncompatibleAction => 4
    case InvalidArgument => 6
    case InvalidPort => 7
    case _ => 5
  }

  /** Nothing is wrong before what is reported: the version is supported, the rules before rule
      `i` are sound and distinct, and so is all of rule `i` whose turn is earlier. */
  ghost predicate NothingEarlier<I>(policy: ParsedPolicy, kind: ErrorKind, i: nat, j: nat, ip: NetworkHost.IpReader<I>)
  {
    kind != UnsupportedVersion ==>
      && i < |policy.rules| && policy.version == 1
      && (forall m :: 0 <= m < i ==> RuleIsSound(policy.rules[m], ip))
      && (forall m, k :: 0 <= k < m < i ==> policy.rules[k].id != policy.rules[m].id)
      && (forall earlier: ErrorKind, l: nat :: Turn(earlier) < Turn(kind) ==> !Wrong(policy.rules, earlier, i, l, ip))
      && (forall l: nat :: l < j ==> !Wrong(policy.rules, kind, i, l, ip))
  }

  function CheckFor(kind: ErrorKind, i: nat, j: nat): Check {
    match kind
    case UnsupportedVersion => VersionCheck
    case InvalidRuleId => IdCheck(i)
    case DuplicateRuleId => UniqueCheck(i)
    case EmptyActions => ActionsCheck(i)
    case IncompatibleAction => ActionCheck(i, j)
    case InvalidArgument => ArgumentCheck(i, j)
    case InvalidPort => PortCheck(i)
    case _ => SelectorCheck(i)
  }

  lemma WrongIsViolation<I>(policy: ParsedPolicy, kind: ErrorKind, i: nat, j: nat, ip: NetworkHost.IpReader<I>)
    requires i < |policy.rules| && Wrong(policy.rules, kind, i, j, ip)
    ensures Violates(policy, CheckFor(kind, i, j), ip)
  {
    hide SaysSomething, NoControls, Fits, PathPattern.Parse, NetworkHost.Parse, Violates, PathOf, Where;
    var check := CheckFor(kind, i, j);
    ChecksInFull(policy, check, ip);
    assert KindOf(policy.rules, check) == kind;
  }

  lemma EarlierRule<I>(policy: ParsedPolicy, check: Check, m: nat, ip: NetworkHost.IpReader<I>)
    requires FirstViolation(policy, check, ip) && !check.VersionCheck? && m < check.rule < |policy.rules|
    ensures RuleIsSound(policy.rules[m], ip)
    ensures forall k :: 0 <= k < m ==> policy.rules[k].id != policy.rules[m].id
  {
    hide SaysSomething, NoControls, Fits, PathPattern.Parse, NetworkHost.Parse, Violates;
    var rule := policy.rules[m];
    forall kind: ErrorKind, j: nat | kind != UnsupportedVersion ensures !Wrong(policy.rules, kind, m, j, ip) {
      assert Precedes(CheckFor(kind, m, j), check);
      if Wrong(policy.rules, kind, m, j, ip) { WrongIsViolation(policy, kind, m, j, ip); }
    }
    SoundWhenNothingWrong(policy.rules, m, ip);
    assert !Wrong(policy.rules, DuplicateRuleId, m, 0, ip);
  }

  lemma SoundWhenNothingWrong<I>(rules: seq<PolicyRule>, i: nat, ip: NetworkHost.IpReader<I>)
    requires i < |rules|
    requires forall kind: ErrorKind, j: nat :: !Wrong(rules, kind, i, j, ip)
    ensures RuleIsSound(rules[i], ip)
  {
    hide SaysSomething, NoControls, Fits, PathPattern.Parse, NetworkHost.Parse;
    var rule := rules[i];
    assert !Wrong(rules, InvalidRuleId, i, 0, ip) && !Wrong(rules, EmptyActions, i, 0, ip);
    assert !Wrong(rules, InvalidPathPattern, i, 0, ip) && !Wrong(rules, InvalidExecutable, i, 0, ip);
    assert !Wrong(rules, InvalidHost, i, 0, ip) && !Wrong(rules, InvalidPort, i, 0, ip);
    forall j | 0 <= j < |rule.actions| ensures Fits(rule.actions[j], rule.resource) {
      assert !Wrong(rules, IncompatibleAction, i, j, ip);
    }
    if rule.resource.CommandSelector? && rule.resource.arguments.Some? {
      forall j | 0 <= j < |rule.resource.arguments.value| ensures '\0' !in rule.resource.arguments.value[j] {
        assert !Wrong(rules, InvalidArgument, i, j, ip);
      }
    }
  }

  lemma FirstHasNothingEarlier<I>(policy: ParsedPolicy, check: Check, ip: NetworkHost.IpReader<I>)
    requires FirstViolation(policy, check, ip) && !check.VersionCheck? && check.rule < |policy.rules|
    ensures NothingEarlier(policy, KindOf(policy.rules, check), check.rule, IndexOf(check), ip)
  {
    hide Violates, RuleIsSound, Wrong, PathOf, Where;
    var i, j, kind := check.rule, IndexOf(check), KindOf(policy.rules, check);
    ChecksInFull(policy, check, ip);
    forall m | 0 <= m < i
      ensures RuleIsSound(policy.rules[m], ip)
      ensures forall k :: 0 <= k < m ==> policy.rules[k].id != policy.rules[m].id
    {
      EarlierRule(policy, check, m, ip);
    }
    forall earlier: ErrorKind, l: nat | Turn(earlier) < Turn(kind) || (earlier == kind && l < j)
      ensures !Wrong(policy.rules, earlier, i, l, ip)
    {
      assert Precedes(CheckFor(earlier, i, l), check);
      if Wrong(policy.rules, earlier, i, l, ip) { WrongIsViolation(policy, earlier, i, l, ip); }
    }
    SupportedWhenLater(policy, check, ip);
  }

  lemma SupportedWhenLater<I>(policy: ParsedPolicy, check: Check, ip: NetworkHost.IpReader<I>)
    requires FirstViolation(policy, check, ip) && !check.VersionCheck?
    ensures policy.version == 1
  {
    hide RuleViolates;
    assert Precedes(VersionCheck, check);
  }

  /** The reported error is what is wrong, with nothing wrong earlier. */
  lemma ReportsInFull<I>(policy: ParsedPolicy, error: ValidationError, ip: NetworkHost.IpReader<I>)
    requires ReportsFirst(policy, error, ip)
    ensures exists i, j :: ReportedAs(policy, error, i, j, ip) && NothingEarlier(policy, error.kind, i, j, ip)
  {
    hide Wrong, Where, PathOf, Decimal, EarliestWith, SelectorFails, ValidId, IndexOf, RuleIsSound;
    var check :| FirstViolation(policy, check, ip) && error == Report(policy, check);
    if check.VersionCheck? {
      VersionReport(policy);
      assert ReportedAs(policy, error, 0, 0, ip) && NothingEarlier(policy, error.kind, 0, 0, ip);
    } else {
      RuleInRange(policy, check, ip);
      ChecksInFull(policy, check, ip);
      FirstHasNothingEarlier(policy, check, ip);
      if check.UniqueCheck? {
        var i := check.rule;
        var k := EarliestWith(policy.rules, policy.rules[i].id);
        DuplicateHasOneOriginal(policy, i, ip);
        EarliestIsFirst(policy.rules, policy.rules[i].id);
        assert OriginalAt(policy.rules, i, k);
        assert RulePath(k) + ".id" == "rules[" + Decimal(k) + "].id";
      }
      assert ReportedAs(policy, error, check.rule, IndexOf(check), ip)
             && NothingEarlier(policy, error.kind, check.rule, IndexOf(check), ip);
    }
  }

  lemma VersionReport(policy: ParsedPolicy)
    ensures PathOf(policy.rules, VersionCheck) == "version"
  {
  }

  // The validator as it runs

  /** Nothing ranked before `limit` is violated. */
  ghost predicate CleanUpTo<I>(policy: ParsedPolicy, limit: Check, ip: NetworkHost.IpReader<I>) {
    forall check :: Precedes(check, limit) ==> !Violates(policy, check, ip)
  }

  /** The reported error is the report of the first violation. */
  ghost predicate ReportsFirst<I>(policy: ParsedPolicy, error: ValidationError, ip: NetworkHost.IpReader<I>) {
    exists check :: FirstViolation(policy, check, ip) && error == Report(policy, check)
  }

  lemma ReportedFirst<I>(policy: ParsedPolicy, check: Check, ip: NetworkHost.IpReader<I>)
    requires CleanUpTo(policy, check, ip) && Violates(policy, check, ip)
    ensures ReportsFirst(policy, Report(policy, check), ip) && !IsValid(policy, ip)
  {
    hide RuleViolates, Report;
    assert FirstViolation(policy, check, ip);
  }

  /** Checks that hold extend the clean part. */
  lemma Advance<I>(policy: ParsedPolicy, from: Check, to: Check, ip: NetworkHost.IpReader<I>)
    requires CleanUpTo(policy, from, ip)
    requires forall check :: Precedes(check, to) && !Precedes(check, from) ==> !Violates(policy, check, ip)
    ensures CleanUpTo(policy, to, ip)
  {
  }

  method ErrorAt(policy: ParsedPolicy, kind: ErrorKind, path: string) returns (r: ValidationError)
    ensures r == ValidationError(kind, path, LocateOrStart(policy.locations, path), None)
  {
    var location := SourceLocation(1, 1);
    if path in policy.locations {
      location := policy.locations[path];
    }
    return ValidationError(kind, path, location, None);
  }

  method ValidateSelector<I>(policy: ParsedPolicy, index: nat, ip: NetworkHost.IpReader<I>)
    returns (r: Result<ValidatedSelector<I>, ValidationError>)
    requires index < |policy.rules|
    requires CleanUpTo(policy, SelectorCheck(index), ip)
    ensures r.Ok? ==> SelectorAgrees(policy.rules[index].resource, r.value, ip)
    ensures r.Ok? ==> CleanUpTo(policy, IdCheck(index + 1), ip)
    ensures r.Err? ==> ReportsFirst(policy, r.error, ip) && !IsValid(policy, ip)
  {
    hide IsValid, IsBlank, ItemPath, CleanUpTo, ReportsFirst, PathPattern.Parse, NetworkHost.Parse;
    var prefix := ResourcePath(index);
    var selector := policy.rules[index].resource;
    ghost var first := SelectorCheck(index);
    match selector
    case FileSelector(pattern) =>
      var segments := PathPattern.ParsePattern(pattern);
      if segments.None? {
        ReportedFirst(policy, first, ip);
        var error := ErrorAt(policy, InvalidPathPattern, prefix + "." + "pattern");
        return Err(error);
      }
      Advance(policy, SelectorCheck(index), IdCheck(index + 1), ip);
      return Ok(ValidFile(pattern, segments.value));
    case GitSelector(repository) =>
      var segments := PathPattern.ParsePattern(repository);
      if segments.None? {
        ReportedFirst(policy, first, ip);
        var error := ErrorAt(policy, InvalidPathPattern, prefix + "." + "repository");
        return Err(error);
      }
      Advance(policy, SelectorCheck(index), IdCheck(index + 1), ip);
      return Ok(ValidGit(repository, segments.value));
    case CommandSelector(executable, arguments) =>
      if IsBlank(executable) || NUL in executable {
        ReportedFirst(policy, first, ip);
        var error := ErrorAt(policy, InvalidExecutable, prefix + "." + "executable");
        return Err(error);
      }
      if arguments.Some? {
        Advance(policy, SelectorCheck(index), ArgumentCheck(index, 0), ip);
        var j := 0;
        while j < |arguments.value|
          invariant 0 <= j <= |arguments.value|
          invariant CleanUpTo(policy, ArgumentCheck(index, j), ip)
        {
          if NUL in arguments.value[j] {
            ReportedFirst(policy, ArgumentCheck(index, j), ip);
            var error := ErrorAt(policy, InvalidArgument, prefix + "." + ArgumentField(j));
            return Err(error);
          }
          Advance(policy, ArgumentCheck(index, j), ArgumentCheck(index, j + 1), ip);
          j := j + 1;
        }
        Advance(policy, ArgumentCheck(index, |arguments.value|), IdCheck(index + 1), ip);
      } else {
        Advance(policy, SelectorCheck(index), IdCheck(index + 1), ip);
      }
      return Ok(ValidCommand(executable, arguments));
    case NetworkSelector(host, port) =>
      var identity := NetworkHost.ParseHost(host, ip);
      if identity.None? {
        ReportedFirst(policy, first, ip);
        var error := ErrorAt(policy, InvalidHost, prefix + "." + "host");
        return Err(error);
      }
      Advance(policy, SelectorCheck(index), PortCheck(index), ip);
      if port == Some(0) {
        ReportedFirst(policy, PortCheck(index), ip);
        var error := ErrorAt(policy, InvalidPort, prefix + "." + "port");
        return Err(error);
      }
      Advance(policy, PortCheck(index), IdCheck(index + 1), ip);
      return Ok(ValidNetwork(host, identity.value, port));
  }

  lemma Start<I>(policy: ParsedPolicy, ip: NetworkHost.IpReader<I>)
    ensures CleanUpTo(policy, VersionCheck, ip)
    ensures policy.version == SUPPORTED_VERSION ==> CleanUpTo(policy, IdCheck(0), ip)
  {
  }

  lemma AllRulesDone<I>(policy: ParsedPolicy, ip: NetworkHost.IpReader<I>)
    requires CleanUpTo(policy, IdCheck(|policy.rules|), ip)
    ensures IsValid(policy, ip)
  {
    forall check ensures !Violates(policy, check, ip) {
      if check.VersionCheck? || check.rule < |policy.rules| {
        assert Precedes(check, IdCheck(|policy.rules|));
      }
    }
  }

  /** The identifiers of the first rules, each with its index. */
  ghost predicate Indexes(identifiers: map<string, nat>, rules: seq<PolicyRule>, count: nat)
    requires count <= |rules|
  {
    && (forall k :: 0 <= k < count ==> rules[k].id in identifiers)
    && (forall id :: id in identifiers ==> identifiers[id] < count && rules[identifiers[id]].id == id)
  }

  /** What the map holds for a duplicate is the earliest rule with that identifier. */
  lemma OriginalIsEarliest<I>(
    policy: ParsedPolicy, identifiers: map<string, nat>, i: nat, ip: NetworkHost.IpReader<I>)
    requires i < |policy.rules| && Indexes(identifiers, policy.rules, i)
    requires CleanUpTo(policy, UniqueCheck(i), ip) && policy.rules[i].id in identifiers
    ensures Violates(policy, UniqueCheck(i), ip)
    ensures identifiers[policy.rules[i].id] == EarliestWith(policy.rules, policy.rules[i].id)
  {
    hide EarliestWith;
    var first := identifiers[policy.rules[i].id];
    assert policy.rules[first].id == policy.rules[i].id;
    assert FirstViolation(policy, UniqueCheck(i), ip);
    DuplicateHasOneOriginal(policy, i, ip);
  }

  method ValidatePolicy<I>(policy: ParsedPolicy, ip: NetworkHost.IpReader<I>)
    returns (r: Result<ValidatedPolicy<I>, ValidationError>)
    ensures r.Ok? <==> IsValid(policy, ip)
    ensures r.Ok? ==> PolicyAgrees(policy, r.value, ip)
    ensures r.Err? ==> ReportsFirst(policy, r.error, ip)
  {
    hide CleanUpTo, ItemPath, ReportsFirst, SelectorFails, ValidId, SelectorAgrees, IsValid, EarliestWith;
    Start(policy, ip);
    if policy.version != SUPPORTED_VERSION {
      ReportedFirst(policy, VersionCheck, ip);
      var error := ErrorAt(policy, UnsupportedVersion, "version");
      return Err(error);
    }
    var identifiers: map<string, nat> := map[];
    var selectors: seq<ValidatedSelector<I>> := [];
    var index := 0;
    while index < |policy.rules|
      invariant 0 <= index <= |policy.rules|
      invariant CleanUpTo(policy, IdCheck(index), ip)
      invariant Indexes(identifiers, policy.rules, index)
      invariant |selectors| == index
      invariant forall k :: 0 <= k < index ==> SelectorAgrees(policy.rules[k].resource, selectors[k], ip)
    {
      var rule := policy.rules[index];
      var idPath := RulePath(index) + ".id";
      if !ValidId(rule.id) {
        ReportedFirst(policy, IdCheck(index), ip);
        var error := ErrorAt(policy, InvalidRuleId, idPath);
        return Err(error);
      }
      Advance(policy, IdCheck(index), UniqueCheck(index), ip);
      if rule.id in identifiers {
        var first := identifiers[rule.id];
        OriginalIsEarliest(policy, identifiers, index, ip);
        ReportedFirst(policy, UniqueCheck(index), ip);
        var error := ErrorAt(policy, DuplicateRuleId, idPath);
        return Err(error.(original := Locate(policy.locations, RulePath(first) + ".id")));
      }
      identifiers := identifiers[rule.id := index];
      Advance(policy, UniqueCheck(index), ActionsCheck(index), ip);
      if rule.actions == [] {
        ReportedFirst(policy, ActionsCheck(index), ip);
        var error := ErrorAt(policy, EmptyActions, RulePath(index) + ".actions");
        return Err(error);
      }
      var kind := SelectorKind(rule.resource);
      Advance(policy, ActionsCheck(index), ActionCheck(index, 0), ip);
      var j := 0;
      while j < |rule.actions|
        invariant 0 <= j <= |rule.actions|
        invariant CleanUpTo(policy, ActionCheck(index, j), ip)
      {
        if rule.actions[j].Kind() != kind {
          ReportedFirst(policy, ActionCheck(index, j), ip);
          var error := ErrorAt(policy, IncompatibleAction, ItemPath(RulePath(index) + ".actions", j));
          return Err(error);
        }
        Advance(policy, ActionCheck(index, j), ActionCheck(index, j + 1), ip);
        j := j + 1;
      }
      Advance(policy, ActionCheck(index, |rule.actions|), SelectorCheck(index), ip);
      var selector :- ValidateSelector(policy, index, ip);
      selectors := selectors + [selector];
      index := index + 1;
    }
    AllRulesDone(policy, ip);
    var rules := seq(|selectors|, i requires 0 <= i < |selectors| =>
      var rule := policy.rules[i];
      ValidatedRule(rule.id, rule.description, rule.effect, rule.actions, selectors[i]));
    return Ok(ValidatedPolicy(policy.version, policy.defaults, rules, policy.locations));
  }
}
