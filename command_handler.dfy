/**
 * The dispatcher: from a received message to the command it names, the
 * parsed arguments, and the replies sent to the channel.
 *
 * The lookups are written twice, as the source's loops (`FindCommand`,
 * `FindRemainderCommand`) and as functions that say what those loops must
 * produce (`FindCommandSpec`, `FindRemainderSpec`); each method is proved
 * to return what its function says, and the lemmas at the end are about
 * the functions.
 */
module CommandHandling {
  import opened Wrappers
  import opened Platform
  import opened PublicCommandDataTypes
  import opened InternalCommandDataTypes
  import opened ArgumentParsers
  import opened CommandDefinitions
  import opened CommandText

  const CommandNotFound := "Command not found"
  const IncorrectParameterCount := "Incorrect number of parameters"
  const NoMatchingParameterTypes := "No command with matching parameter types"
  const NoRemainderCommand := "No remainder command"
  const FailedToParseRemainder := "Failed to parse remainder"
  const FailedToCreateInstance := "Failed to create instance "

  datatype CommandExecution =
    | Success(signature: InternalCommandInfo, parameters: seq<Value>)
    | Error(message: string)

  type Parsers = map<ArgType, ArgumentParser>

  // ---------------------------------------------------------------------------
  // Matching one candidate

  /** `argumentParsers[type]?.parseArgument(input)`: no value when the type has no parser. */
  function ParseWith(parsers: Parsers, t: ArgType, input: string): Option<Value> {
    if t in parsers then parsers[t].ParseArgument(input) else None
  }

  function Types(c: InternalCommandInfo): (types: seq<ArgType>)
    ensures |types| == |c.commandInfo.parameters|
    ensures forall i :: 0 <= i < |types| ==> types[i] == c.commandInfo.parameters[i].paramType
  {
    seq(|c.commandInfo.parameters|, i requires 0 <= i < |c.commandInfo.parameters| => c.commandInfo.parameters[i].paramType)
  }

  /** Each input through the parser of the parameter at the same position; no value if any of them fails. */
  function ParseArguments(parsers: Parsers, types: seq<ArgType>, inputs: seq<string>): (r: Option<seq<Value>>)
    requires |types| == |inputs|
    ensures r.Some? ==> |r.value| == |types|
  {
    if types == [] then Some([])
    else
      var head := ParseWith(parsers, types[0], inputs[0]);
      var tail := ParseArguments(parsers, types[1..], inputs[1..]);
      if head.None? || tail.None? then None else Some([head.value] + tail.value)
  }

  /** The arguments parse exactly when every input parses, and then the values are the inputs' values in order. */
  lemma {:induction false} ParseArgumentsMeaning(parsers: Parsers, types: seq<ArgType>, inputs: seq<string>)
    requires |types| == |inputs|
    ensures var r := ParseArguments(parsers, types, inputs);
      && (r.Some? <==> forall i :: 0 <= i < |types| ==> ParseWith(parsers, types[i], inputs[i]).Some?)
      && (r.Some? ==> forall i :: 0 <= i < |types| ==> ParseWith(parsers, types[i], inputs[i]) == Some(r.value[i]))
  {
    if types != [] {
      ParseArgumentsMeaning(parsers, types[1..], inputs[1..]);
      assert forall i :: 1 <= i < |types| ==> types[1..][i - 1] == types[i] && inputs[1..][i - 1] == inputs[i];
    }
  }

  predicate HasArity(candidates: seq<InternalCommandInfo>, n: int) {
    forall i :: 0 <= i < |candidates| ==> |candidates[i].commandInfo.parameters| == n
  }

  /** The first candidate at or after `from` whose arguments all parse, with the parsed values. */
  function FirstMatch(parsers: Parsers, candidates: seq<InternalCommandInfo>, args: seq<string>, from: nat): (r: Option<(nat, seq<Value>)>)
    requires from <= |candidates| && HasArity(candidates, |args|)
    ensures r.Some? ==> from <= r.value.0 < |candidates| && |r.value.1| == |args|
    decreases |candidates| - from
  {
    if from == |candidates| then None
    else
      match ParseArguments(parsers, Types(candidates[from]), args)
      case Some(values) => Some((from, values))
      case None => FirstMatch(parsers, candidates, args, from + 1)
  }

  /** What FirstMatch finds parses, and every candidate it passed over does not. */
  lemma {:induction false} FirstMatchFound(parsers: Parsers, candidates: seq<InternalCommandInfo>, args: seq<string>, from: nat)
    requires from <= |candidates| && HasArity(candidates, |args|)
    ensures var r := FirstMatch(parsers, candidates, args, from);
      r.Some? ==>
        && ParseArguments(parsers, Types(candidates[r.value.0]), args) == Some(r.value.1)
        && forall j :: from <= j < r.value.0 ==> ParseArguments(parsers, Types(candidates[j]), args).None?
    decreases |candidates| - from
  {
    if from < |candidates| {
      var parsed := ParseArguments(parsers, Types(candidates[from]), args);
      if parsed.None? {
        assert FirstMatch(parsers, candidates, args, from) == FirstMatch(parsers, candidates, args, from + 1);
        FirstMatchFound(parsers, candidates, args, from + 1);
      } else {
        assert FirstMatch(parsers, candidates, args, from) == Some((from, parsed.value));
      }
    }
  }

  /** FirstMatch finds nothing exactly when no candidate from `from` on parses. */
  lemma {:induction false} FirstMatchNone(parsers: Parsers, candidates: seq<InternalCommandInfo>, args: seq<string>, from: nat)
    requires from <= |candidates| && HasArity(candidates, |args|)
    ensures FirstMatch(parsers, candidates, args, from).None? <==>
      forall j :: from <= j < |candidates| ==> ParseArguments(parsers, Types(candidates[j]), args).None?
    decreases |candidates| - from
  {
    if from < |candidates| && ParseArguments(parsers, Types(candidates[from]), args).None? {
      FirstMatchNone(parsers, candidates, args, from + 1);
    }
  }

  /** The first matching candidate with its parsed arguments, or `failure`. */
  function Select(parsers: Parsers, candidates: seq<InternalCommandInfo>, args: seq<string>, failure: string): (r: CommandExecution)
    requires HasArity(candidates, |args|)
    ensures r.Error? ==> r.message == failure
    ensures r.Success? ==> r.signature in candidates && |r.parameters| == |args|
  {
    match FirstMatch(parsers, candidates, args, 0)
    case Some((k, values)) => Success(candidates[k], values)
    case None => Error(failure)
  }

  // ---------------------------------------------------------------------------
  // What the two lookups must produce

  /** `findCommand`: the name is the first part, the other parts are the inputs and fix the parameter count. */
  function FindCommandSpec(m: CommandMapping, parts: seq<string>): (r: CommandExecution)
    requires KeyedByArity(m.commandMap) && |parts| >= 1
    ensures r.Error? ==> r.message in {CommandNotFound, IncorrectParameterCount, NoMatchingParameterTypes}
    ensures r.Success? ==>
      && parts[0] in m.commandMap && |parts| - 1 in m.commandMap[parts[0]]
      && r.signature in m.commandMap[parts[0]][|parts| - 1]
      && |r.signature.commandInfo.parameters| == |r.parameters| == |parts| - 1
  {
    var name, inputs := parts[0], parts[1..];
    if name !in m.commandMap then Error(CommandNotFound)
    else if |inputs| !in m.commandMap[name] || m.commandMap[name][|inputs|] == [] then Error(IncorrectParameterCount)
    else Select(m.argumentParsers, m.commandMap[name][|inputs|], inputs, NoMatchingParameterTypes)
  }

  /** The arguments of an `n`-parameter remainder command: `n - 1` inputs, then the rest joined by single spaces. */
  function RemainderArguments(inputs: seq<string>, n: nat): (args: seq<string>)
    requires 1 <= n <= |inputs|
    ensures |args| == n
    ensures forall i :: 0 <= i < n - 1 ==> args[i] == inputs[i]
    ensures args[n - 1] == Join(inputs[n - 1..], " ")
  {
    inputs[..n - 1] + [Join(inputs[n - 1..], " ")]
  }

  predicate BucketsByArity(buckets: map<int, seq<InternalCommandInfo>>) {
    forall k :: k in buckets ==> HasArity(buckets[k], k)
  }

  /** Parameter counts from `size` down to 1, the first that has a matching candidate. */
  function RemainderSearch(parsers: Parsers, buckets: map<int, seq<InternalCommandInfo>>, inputs: seq<string>, size: nat): (r: CommandExecution)
    requires size <= |inputs| && BucketsByArity(buckets)
    ensures r.Error? ==> r.message == FailedToParseRemainder
    ensures r.Success? ==>
      var n := |r.signature.commandInfo.parameters|;
      1 <= n <= size && n in buckets && r.signature in buckets[n] && |r.parameters| == n
    decreases size
  {
    if size == 0 then Error(FailedToParseRemainder)
    else if size !in buckets || buckets[size] == [] then RemainderSearch(parsers, buckets, inputs, size - 1)
    else
      var found := Select(parsers, buckets[size], RemainderArguments(inputs, size), FailedToParseRemainder);
      if found.Success? then found else RemainderSearch(parsers, buckets, inputs, size - 1)
  }

  /** `findRemainderCommand`. */
  function FindRemainderSpec(m: CommandMapping, parts: seq<string>): (r: CommandExecution)
    requires KeyedByArity(m.remainderCommandMap) && |parts| >= 1
    ensures r.Error? ==> r.message in {NoRemainderCommand, FailedToParseRemainder}
    ensures |parts| == 1 ==> r.Error?
    ensures r.Success? ==>
      var n := |r.signature.commandInfo.parameters|;
      parts[0] in m.remainderCommandMap && 1 <= n <= |parts| - 1 && n in m.remainderCommandMap[parts[0]]
      && r.signature in m.remainderCommandMap[parts[0]][n] && |r.parameters| == n
  {
    var name, inputs := parts[0], parts[1..];
    if name !in m.remainderCommandMap then Error(NoRemainderCommand)
    else
      assert BucketsByArity(m.remainderCommandMap[name]);
      RemainderSearch(m.argumentParsers, m.remainderCommandMap[name], inputs, |inputs|)
  }

  /** The exact lookup first; the remainder lookup only when that failed and remainder commands exist, and only its success is kept. */
  function Resolve(m: CommandMapping, parts: seq<string>): (r: CommandExecution)
    requires KeyedByArity(m.commandMap) && KeyedByArity(m.remainderCommandMap) && |parts| >= 1
    ensures r.Error? ==> r.message in {CommandNotFound, IncorrectParameterCount, NoMatchingParameterTypes}
    ensures r.Success? ==>
      var n := |r.signature.commandInfo.parameters|;
      |r.parameters| == n <= |parts| - 1
      && ((parts[0] in m.commandMap && n in m.commandMap[parts[0]] && r.signature in m.commandMap[parts[0]][n])
          || (parts[0] in m.remainderCommandMap && n in m.remainderCommandMap[parts[0]]
              && r.signature in m.remainderCommandMap[parts[0]][n]))
  {
    var command := FindCommandSpec(m, parts);
    if command.Error? && |m.remainderCommandMap| > 0 then
      var remainder := FindRemainderSpec(m, parts);
      if remainder.Success? then remainder else command
    else command
  }

  // ---------------------------------------------------------------------------
  // The event, the injector and the call

  /** What the dispatcher reads from a received-message event. */
  datatype MessageReceivedEvent = MessageReceivedEvent(
    authorIsBot: bool,
    contentDisplay: string,
    isFromGuild: bool,
    guild: Guild,
    channel: MessageChannel,
    author: User,
    message: Message)

  function ContextOf(event: MessageReceivedEvent): (c: CommandContext)
    ensures c.guild.Some? <==> event.isFromGuild
    ensures c.channel == event.channel && c.user == event.author && c.message == event.message
  {
    CommandContext(if event.isFromGuild then Some(event.guild) else None, event.channel, event.author, event.message)
  }

  /** What the injector does when asked for an instance of a class. */
  datatype Provision =
    | Provided(instance: BaseCommandDefinition)
    | ProvidedNull
    | ProvisionFailed(reason: string)

  /** The dependency injector, as what each class it knows how to provide resolves to. */
  datatype Injector = Injector(bindings: map<ClassRef, Provision>) {
    /** A class the injector has no binding for fails to provision. */
    function GetInstance(clazz: ClassRef): Provision {
      if clazz in bindings then bindings[clazz] else ProvisionFailed("no binding for " + clazz.qualifiedName)
    }

    ghost function Instances(): set<BaseCommandDefinition> {
      set c | c in bindings && bindings[c].Provided? :: bindings[c].instance
    }
  }

  /** A call of a command function on an instance, with the parsed arguments. */
  datatype Invocation = Invocation(instance: BaseCommandDefinition, func: FunctionRef, arguments: seq<Value>)

  /**
   * How a command function's call ended: normally, or by throwing an
   * exception whose message (if any) is given.
   */
  datatype CallResult = Returned | ThrewTarget(message: Option<string>)

  datatype Outcome =
    | Ignored
    | Replied(message: string)
    | Invoked(invocation: Invocation, result: CallResult)

  /** The texts a handled event sends to its channel. */
  function Replies(outcome: Outcome): seq<string> {
    match outcome
    case Ignored => []
    case Replied(message) => [message]
    case Invoked(_, ThrewTarget(Some(message))) => [message]
    case Invoked(_, _) => []
  }

  /** Gate on the author and the text, resolve, instantiate, call. */
  function HandleSpec(m: CommandMapping, injector: Injector, event: MessageReceivedEvent, call: Invocation -> CallResult): (r: Outcome)
    requires KeyedByArity(m.commandMap) && KeyedByArity(m.remainderCommandMap)
    ensures event.authorIsBot ==> r == Ignored
    ensures r.Replied? ==> r.message != NoRemainderCommand && r.message != FailedToParseRemainder
    ensures r.Invoked? ==> r.invocation.instance in injector.Instances() && r.result == call(r.invocation)
  {
    if event.authorIsBot || !IsCommandText(event.contentDisplay) then Ignored
    else Execute(injector, Resolve(m, CommandParts(event.contentDisplay)), call)
  }

  /** Reply with a lookup error, or instantiate the command's class and call its function. */
  function Execute(injector: Injector, command: CommandExecution, call: Invocation -> CallResult): (r: Outcome)
    ensures r != Ignored
    ensures command.Error? ==> r == Replied(command.message)
    ensures r.Invoked? ==>
      && command.Success? && injector.GetInstance(command.signature.clazz).Provided?
      && r.invocation == Invocation(injector.GetInstance(command.signature.clazz).instance, command.signature.func, command.parameters)
      && r.result == call(r.invocation)
    ensures r.Replied? && command.Success? ==>
      !injector.GetInstance(command.signature.clazz).Provided?
      && r.message == FailedToCreateInstance + command.signature.clazz.simpleName
  {
    match command
    case Error(message) => Replied(message)
    case Success(signature, parameters) =>
      match injector.GetInstance(signature.clazz)
      case Provided(definition) =>
        var invocation := Invocation(definition, signature.func, parameters);
        Invoked(invocation, call(invocation))
      case _ => Replied(FailedToCreateInstance + signature.clazz.simpleName)
  }

  /** Every input parses with the parser of the candidate's parameter at the same position. */
  predicate Accepts(parsers: Parsers, c: InternalCommandInfo, args: seq<string>) {
    |c.commandInfo.parameters| == |args|
    && forall i :: 0 <= i < |args| ==> ParseWith(parsers, c.commandInfo.parameters[i].paramType, args[i]).Some?
  }

  /** `values` are the parsed inputs of the candidate, in parameter order. */
  predicate Yields(parsers: Parsers, c: InternalCommandInfo, args: seq<string>, values: seq<Value>) {
    |c.commandInfo.parameters| == |args| == |values|
    && forall i :: 0 <= i < |args| ==> ParseWith(parsers, c.commandInfo.parameters[i].paramType, args[i]) == Some(values[i])
  }

  lemma ParseArgumentsAccepts(parsers: Parsers, c: InternalCommandInfo, args: seq<string>)
    requires |c.commandInfo.parameters| == |args|
    ensures var r := ParseArguments(parsers, Types(c), args);
      && (r.Some? <==> Accepts(parsers, c, args))
      && (r.Some? ==> Yields(parsers, c, args, r.value))
  {
    ParseArgumentsMeaning(parsers, Types(c), args);
  }

  /**
   * Selection succeeds exactly when some candidate accepts the arguments; it
   * returns the first such candidate with its parsed values, and otherwise
   * the given failure message.
   */
  lemma SelectMeaning(parsers: Parsers, candidates: seq<InternalCommandInfo>, args: seq<string>, failure: string)
    requires HasArity(candidates, |args|)
    ensures var r := Select(parsers, candidates, args, failure);
      && (r.Success? <==> exists k :: 0 <= k < |candidates| && Accepts(parsers, candidates[k], args))
      && (r.Error? ==> r.message == failure)
      && (r.Success? ==> exists k :: 0 <= k < |candidates| && candidates[k] == r.signature
                          && (forall j :: 0 <= j < k ==> !Accepts(parsers, candidates[j], args))
                          && Yields(parsers, candidates[k], args, r.parameters))
  {
    var found := FirstMatch(parsers, candidates, args, 0);
    FirstMatchFound(parsers, candidates, args, 0);
    FirstMatchNone(parsers, candidates, args, 0);
    forall j | 0 <= j < |candidates|
      ensures ParseArguments(parsers, Types(candidates[j]), args).None? <==> !Accepts(parsers, candidates[j], args)
    {
      ParseArgumentsAccepts(parsers, candidates[j], args);
    }
    if found.Some? {
      var k := found.value.0;
      ParseArgumentsAccepts(parsers, candidates[k], args);
      assert Accepts(parsers, candidates[k], args);
    }
  }

  /** A candidate with an input that fails to parse is passed over. */
  lemma FirstMatchSkips(parsers: Parsers, candidates: seq<InternalCommandInfo>, args: seq<string>, c: nat, i: nat)
    requires c < |candidates| && HasArity(candidates, |args|)
    requires i < |args| && ParseWith(parsers, Types(candidates[c])[i], args[i]).None?
    ensures FirstMatch(parsers, candidates, args, c) == FirstMatch(parsers, candidates, args, c + 1)
  {
    ParseArgumentsMeaning(parsers, Types(candidates[c]), args);
  }

  /** A candidate whose every input parses is the one selected, with the parsed values. */
  lemma SelectFound(parsers: Parsers, candidates: seq<InternalCommandInfo>, args: seq<string>, failure: string, c: nat, parameters: seq<Value>)
    requires c < |candidates| && HasArity(candidates, |args|)
    requires FirstMatch(parsers, candidates, args, 0) == FirstMatch(parsers, candidates, args, c)
    requires |parameters| == |args|
    requires forall j :: 0 <= j < |args| ==> ParseWith(parsers, Types(candidates[c])[j], args[j]) == Some(parameters[j])
    ensures Select(parsers, candidates, args, failure) == Success(candidates[c], parameters)
  {
    var parsed := ParseArguments(parsers, Types(candidates[c]), args);
    ParseArgumentsMeaning(parsers, Types(candidates[c]), args);
    assert parsed.Some?;
    assert parsed.value == parameters;
  }

  // ---------------------------------------------------------------------------
  // The handler

  class CommandHandler {
    const commandMap: CommandMap
    const remainderCommandMap: CommandMap
    const argumentParsers: Parsers
    const injector: Injector

    /** What the loader guarantees: a candidate listed under parameter count `k` has `k` parameters. */
    ghost predicate Valid() {
      KeyedByArity(commandMap) && KeyedByArity(remainderCommandMap)
    }

    function Mapping(): CommandMapping {
      CommandMapping(commandMap, remainderCommandMap, argumentParsers)
    }

    constructor (commandMapping: CommandMapping, injector: Injector)
      requires KeyedByArity(commandMapping.commandMap) && KeyedByArity(commandMapping.remainderCommandMap)
      ensures Valid()
      ensures commandMap == commandMapping.commandMap && remainderCommandMap == commandMapping.remainderCommandMap
      ensures argumentParsers == commandMapping.argumentParsers && this.injector == injector
    {
      commandMap := commandMapping.commandMap;
      remainderCommandMap := commandMapping.remainderCommandMap;
      argumentParsers := commandMapping.argumentParsers;
      this.injector := injector;
    }

    method FindCommand(commandParts: seq<string>) returns (r: CommandExecution)
      requires Valid() && |commandParts| >= 1
      ensures r == FindCommandSpec(Mapping(), commandParts)
    {
      if commandParts[0] !in commandMap {
        return Error(CommandNotFound);
      }
      var matchingCommands := commandMap[commandParts[0]];
      var parameterInputs := commandParts[1..];
      if |parameterInputs| !in matchingCommands || |matchingCommands[|parameterInputs|]| == 0 {
        return Error(IncorrectParameterCount);
      }
      var candidates := matchingCommands[|parameterInputs|];
      assert HasArity(candidates, |parameterInputs|);
      r := MatchCandidates(candidates, parameterInputs, NoMatchingParameterTypes);
    }

    method FindRemainderCommand(commandParts: seq<string>) returns (r: CommandExecution)
      requires Valid() && |commandParts| >= 1
      ensures r == FindRemainderSpec(Mapping(), commandParts)
    {
      if commandParts[0] !in remainderCommandMap {
        return Error(NoRemainderCommand);
      }
      var matchingCommands := remainderCommandMap[commandParts[0]];
      var parameterInputs := commandParts[1..];
      assert BucketsByArity(matchingCommands);
      ghost var spec := RemainderSearch(argumentParsers, matchingCommands, parameterInputs, |parameterInputs|);
      assert FindRemainderSpec(Mapping(), commandParts) == spec;
      var size := |parameterInputs|;
      while size >= 1
        invariant 0 <= size <= |parameterInputs|
        invariant spec == RemainderSearch(argumentParsers, matchingCommands, parameterInputs, size)
        decreases size
      {
        if size !in matchingCommands || |matchingCommands[size]| == 0 {
          size := size - 1;
          continue;
        }
        // The inputs before the last parameter one by one, then everything after them joined.
        var parameterArguments := parameterInputs[..size - 1] + [Join(parameterInputs[size - 1..], " ")];
        assert parameterArguments == RemainderArguments(parameterInputs, size);
        var found := MatchCandidates(matchingCommands[size], parameterArguments, FailedToParseRemainder);
        if found.Success? {
          return found;
        }
        size := size - 1;
      }
      return Error(FailedToParseRemainder);
    }

    /**
     * The `outer@` candidate loop: the first candidate whose every argument
     * parses, with the parsed values, or `failure`.
     */
    method MatchCandidates(candidates: seq<InternalCommandInfo>, arguments: seq<string>, failure: string)
      returns (r: CommandExecution)
      requires HasArity(candidates, |arguments|)
      ensures r == Select(argumentParsers, candidates, arguments, failure)
    {
      label Outer:
      for c := 0 to |candidates|
        invariant FirstMatch(argumentParsers, candidates, arguments, 0) == FirstMatch(argumentParsers, candidates, arguments, c)
      {
        var candidate := candidates[c];
        var parameterTypes := Types(candidate);
        assert |parameterTypes| == |arguments|;
        var parameters: seq<Value> := [];
        for i := 0 to |parameterTypes|
          invariant |parameters| == i
          invariant forall j :: 0 <= j < i ==> ParseWith(argumentParsers, parameterTypes[j], arguments[j]) == Some(parameters[j])
        {
          var parameterValue := ParseWith(argumentParsers, parameterTypes[i], arguments[i]);
          if parameterValue.None? {
            FirstMatchSkips(argumentParsers, candidates, arguments, c, i);
            continue Outer;
          }
          parameters := parameters + [parameterValue.value];
        }
        SelectFound(argumentParsers, candidates, arguments, failure, c, parameters);
        return Success(candidate, parameters);
      }
      return Error(failure);
    }

    /** The exact lookup, replaced by the remainder lookup's result only when that one succeeds. */
    method ResolveCommand(commandParts: seq<string>) returns (command: CommandExecution)
      requires Valid() && |commandParts| >= 1
      ensures command == Resolve(Mapping(), commandParts)
    {
      command := FindCommand(commandParts);
      if command.Error? && |remainderCommandMap| > 0 {
        var remainderCommand := FindRemainderCommand(commandParts);
        if remainderCommand.Success? {
          command := remainderCommand;
        }
      }
    }

    /** `createDefinitionInstance`: the injector's instance with the event's context attached, or nothing. */
    method CreateDefinitionInstance(clazz: ClassRef, event: MessageReceivedEvent) returns (definition: Option<BaseCommandDefinition>)
      modifies if injector.GetInstance(clazz).Provided? then {injector.GetInstance(clazz).instance} else {}
      ensures injector.GetInstance(clazz).Provided? ==>
        definition == Some(injector.GetInstance(clazz).instance) && definition.value.context == Some(ContextOf(event))
      ensures !injector.GetInstance(clazz).Provided? ==> definition == None
    {
      var provision := injector.GetInstance(clazz);
      if !provision.Provided? {
        return None;
      }
      provision.instance.SetContext(ContextOf(event));
      return Some(provision.instance);
    }

    /** `handleCommand`. */
    method HandleCommand(event: MessageReceivedEvent, call: Invocation -> CallResult) returns (outcome: Outcome)
      requires Valid()
      modifies event.channel, injector.Instances()
      ensures outcome == HandleSpec(Mapping(), injector, event, call)
      ensures event.channel.sent == old(event.channel.sent) + Replies(outcome)
      ensures outcome.Invoked? ==> outcome.invocation.instance.context == Some(ContextOf(event))
      ensures forall d :: d in injector.Instances() && !(outcome.Invoked? && d == outcome.invocation.instance) ==>
                d.context == old(d.context)
    {
      if event.authorIsBot {
        return Ignored;
      }
      var messageText := event.contentDisplay;
      if !(|messageText| > 0 && messageText[0] == CommandPrefix) || RemovePrefixChars(messageText) == [] {
        return Ignored;
      }
      var commandParts := Split(RemoveFirstPrefix(messageText));
      var command := ResolveCommand(commandParts);
      outcome := ExecuteCommand(command, event, call);
    }

    /** Send the error, or run the resolved command on a fresh context. */
    method ExecuteCommand(command: CommandExecution, event: MessageReceivedEvent, call: Invocation -> CallResult) returns (outcome: Outcome)
      modifies event.channel, injector.Instances()
      ensures outcome == Execute(injector, command, call)
      ensures event.channel.sent == old(event.channel.sent) + Replies(outcome)
      ensures outcome.Invoked? ==> outcome.invocation.instance.context == Some(ContextOf(event))
      ensures forall d :: d in injector.Instances() && !(outcome.Invoked? && d == outcome.invocation.instance) ==>
                d.context == old(d.context)
    {
      match command
      case Error(message) =>
        event.channel.SendMessage(message);
        return Replied(message);
      case Success(signature, parameters) =>
        var definition := CreateDefinitionInstance(signature.clazz, event);
        if definition.None? {
          var text := FailedToCreateInstance + signature.clazz.simpleName;
          event.channel.SendMessage(text);
          return Replied(text);
        }
        var invocation := Invocation(definition.value, signature.func, parameters);
        var result := call(invocation);
        if result.ThrewTarget? && result.message.Some? {
          event.channel.SendMessage(result.message.value);
        }
        return Invoked(invocation, result);
    }
  }

  // ---------------------------------------------------------------------------
  // What the lookups and the dispatcher promise

  /** The bucket the exact lookup searches: the name's candidates with as many parameters as there are inputs. */
  predicate HasBucket(m: CommandMapping, parts: seq<string>)
    requires |parts| >= 1
  {
    parts[0] in m.commandMap && |parts| - 1 in m.commandMap[parts[0]] && m.commandMap[parts[0]][|parts| - 1] != []
  }

  /** The exact lookup's errors, in the order the source checks them. */
  lemma FindCommandErrors(m: CommandMapping, parts: seq<string>)
    requires KeyedByArity(m.commandMap) && |parts| >= 1
    ensures var r := FindCommandSpec(m, parts);
      && (r == Error(CommandNotFound) <==> parts[0] !in m.commandMap)
      && (r == Error(IncorrectParameterCount) <==> parts[0] in m.commandMap && !HasBucket(m, parts))
      && (r == Error(NoMatchingParameterTypes) <==>
            HasBucket(m, parts)
            && forall c :: c in m.commandMap[parts[0]][|parts| - 1] ==> !Accepts(m.argumentParsers, c, parts[1..]))
      && (r.Error? ==> r.message in {CommandNotFound, IncorrectParameterCount, NoMatchingParameterTypes})
  {
    var name, inputs := parts[0], parts[1..];
    if HasBucket(m, parts) {
      var bucket := m.commandMap[name][|inputs|];
      SelectMeaning(m.argumentParsers, bucket, inputs, NoMatchingParameterTypes);
      assert (forall c :: c in bucket ==> !Accepts(m.argumentParsers, c, inputs)) <==>
             (forall k :: 0 <= k < |bucket| ==> !Accepts(m.argumentParsers, bucket[k], inputs));
    }
  }

  /**
   * A successful exact lookup returns a candidate of the named bucket with
   * the parsed inputs, one value per parameter, and every candidate before
   * it in bucket order rejects the inputs.
   */
  lemma FindCommandMatch(m: CommandMapping, parts: seq<string>)
    requires KeyedByArity(m.commandMap) && |parts| >= 1
    ensures var r := FindCommandSpec(m, parts);
      r.Success? ==>
        && HasBucket(m, parts)
        && var bucket := m.commandMap[parts[0]][|parts| - 1];
           exists k :: 0 <= k < |bucket| && bucket[k] == r.signature
             && (forall j :: 0 <= j < k ==> !Accepts(m.argumentParsers, bucket[j], parts[1..]))
             && Yields(m.argumentParsers, r.signature, parts[1..], r.parameters)
  {
    if HasBucket(m, parts) {
      SelectMeaning(m.argumentParsers, m.commandMap[parts[0]][|parts| - 1], parts[1..], NoMatchingParameterTypes);
    }
  }

  /** Whether some candidate of arity `n` accepts the remainder arguments for `n`. */
  predicate RemainderFits(parsers: Parsers, buckets: map<int, seq<InternalCommandInfo>>, inputs: seq<string>, n: nat)
    requires 1 <= n <= |inputs|
  {
    n in buckets && exists c :: c in buckets[n] && Accepts(parsers, c, RemainderArguments(inputs, n))
  }

  /** A fitting arity is one whose selection succeeds. */
  lemma RemainderFitsSelect(parsers: Parsers, buckets: map<int, seq<InternalCommandInfo>>, inputs: seq<string>, n: nat)
    requires 1 <= n <= |inputs| && BucketsByArity(buckets)
    ensures RemainderFits(parsers, buckets, inputs, n) <==>
      n in buckets && buckets[n] != [] && Select(parsers, buckets[n], RemainderArguments(inputs, n), FailedToParseRemainder).Success?
  {
    if n in buckets {
      var args := RemainderArguments(inputs, n);
      SelectMeaning(parsers, buckets[n], args, FailedToParseRemainder);
      assert RemainderFits(parsers, buckets, inputs, n) <==>
             exists k :: 0 <= k < |buckets[n]| && Accepts(parsers, buckets[n][k], args);
    }
  }

  /** The largest arity from `size` down to 1 that fits, or 0 when none does. */
  function LargestFit(parsers: Parsers, buckets: map<int, seq<InternalCommandInfo>>, inputs: seq<string>, size: nat): (n: nat)
    requires size <= |inputs|
    ensures n <= size
    ensures n >= 1 ==> RemainderFits(parsers, buckets, inputs, n)
    ensures forall n' :: n < n' <= size ==> !RemainderFits(parsers, buckets, inputs, n')
    decreases size
  {
    if size == 0 then 0
    else if RemainderFits(parsers, buckets, inputs, size) then size
    else LargestFit(parsers, buckets, inputs, size - 1)
  }

  /** The remainder search answers with the selection at the largest fitting arity, and fails when none fits. */
  lemma {:induction false} RemainderSearchLargest(parsers: Parsers, buckets: map<int, seq<InternalCommandInfo>>, inputs: seq<string>, size: nat)
    requires size <= |inputs| && BucketsByArity(buckets)
    ensures var n := LargestFit(parsers, buckets, inputs, size);
      RemainderSearch(parsers, buckets, inputs, size) ==
        if n == 0 then Error(FailedToParseRemainder)
        else Select(parsers, buckets[n], RemainderArguments(inputs, n), FailedToParseRemainder)
    decreases size
  {
    if size > 0 {
      RemainderFitsSelect(parsers, buckets, inputs, size);
      if !RemainderFits(parsers, buckets, inputs, size) {
        RemainderSearchLargest(parsers, buckets, inputs, size - 1);
      }
    }
  }

  /**
   * The remainder search succeeds exactly when some arity from `size` down
   * to 1 fits; it then answers with the largest such arity, and it fails
   * with "Failed to parse remainder" only.
   */
  lemma RemainderSearchMeaning(parsers: Parsers, buckets: map<int, seq<InternalCommandInfo>>, inputs: seq<string>, size: nat)
    requires size <= |inputs| && BucketsByArity(buckets)
    ensures var r := RemainderSearch(parsers, buckets, inputs, size);
      var n := LargestFit(parsers, buckets, inputs, size);
      && (r.Error? ==> r == Error(FailedToParseRemainder))
      && (r.Success? <==> exists n' :: 1 <= n' <= size && RemainderFits(parsers, buckets, inputs, n'))
      && (r.Success? ==> 1 <= n && r == Select(parsers, buckets[n], RemainderArguments(inputs, n), FailedToParseRemainder))
  {
    RemainderSearchLargest(parsers, buckets, inputs, size);
    var n := LargestFit(parsers, buckets, inputs, size);
    if n >= 1 {
      RemainderFitsSelect(parsers, buckets, inputs, n);
    }
  }

  /**
   * The remainder lookup: "No remainder command" exactly when the name has
   * no remainder commands, and otherwise either "Failed to parse remainder"
   * or a candidate with `n` parameters, `1 <= n <= ` the number of inputs,
   * given the first `n - 1` inputs and then the rest joined by spaces.
   */
  lemma FindRemainderMeaning(m: CommandMapping, parts: seq<string>)
    requires KeyedByArity(m.remainderCommandMap) && |parts| >= 1
    ensures var r := FindRemainderSpec(m, parts);
      && (r == Error(NoRemainderCommand) <==> parts[0] !in m.remainderCommandMap)
      && (r.Error? ==> r.message in {NoRemainderCommand, FailedToParseRemainder})
      && (|parts| == 1 ==> r.Error?)
      && (r.Success? ==>
            && parts[0] in m.remainderCommandMap
            && var n := |r.signature.commandInfo.parameters|;
               && 1 <= n <= |parts| - 1
               && n in m.remainderCommandMap[parts[0]]
               && r.signature in m.remainderCommandMap[parts[0]][n]
               && Yields(m.argumentParsers, r.signature, RemainderArguments(parts[1..], n), r.parameters))
  {
    var name, inputs := parts[0], parts[1..];
    if name in m.remainderCommandMap {
      var buckets := m.remainderCommandMap[name];
      assert BucketsByArity(buckets);
      var r := RemainderSearch(m.argumentParsers, buckets, inputs, |inputs|);
      RemainderSearchMeaning(m.argumentParsers, buckets, inputs, |inputs|);
      if r.Success? {
        var n := LargestFit(m.argumentParsers, buckets, inputs, |inputs|);
        SelectMeaning(m.argumentParsers, buckets[n], RemainderArguments(inputs, n), FailedToParseRemainder);
      }
    }
  }

  /** An exact match always wins, and without remainder commands only the exact lookup counts. */
  lemma ResolveExactFirst(m: CommandMapping, parts: seq<string>)
    requires KeyedByArity(m.commandMap) && KeyedByArity(m.remainderCommandMap) && |parts| >= 1
    ensures FindCommandSpec(m, parts).Success? ==> Resolve(m, parts) == FindCommandSpec(m, parts)
    ensures |m.remainderCommandMap| == 0 ==> Resolve(m, parts) == FindCommandSpec(m, parts)
    ensures Resolve(m, parts) != FindCommandSpec(m, parts) ==>
      && FindCommandSpec(m, parts).Error? && |m.remainderCommandMap| > 0
      && Resolve(m, parts) == FindRemainderSpec(m, parts) && Resolve(m, parts).Success?
  {
  }

  /** On failure the reply is the exact lookup's error; the remainder lookup's own errors never surface. */
  lemma ResolveFailure(m: CommandMapping, parts: seq<string>)
    requires KeyedByArity(m.commandMap) && KeyedByArity(m.remainderCommandMap) && |parts| >= 1
    ensures Resolve(m, parts).Error? ==> Resolve(m, parts) == FindCommandSpec(m, parts)
    ensures Resolve(m, parts).Error? ==>
      Resolve(m, parts).message in {CommandNotFound, IncorrectParameterCount, NoMatchingParameterTypes}
    ensures Resolve(m, parts).Error? ==>
      Resolve(m, parts).message != NoRemainderCommand && Resolve(m, parts).message != FailedToParseRemainder
  {
    FindCommandErrors(m, parts);
  }

  /** An event is ignored, with no reply, exactly when the author is a bot, the text lacks the leading `!`, or it is `!`s only. */
  lemma HandleIgnored(m: CommandMapping, injector: Injector, event: MessageReceivedEvent, call: Invocation -> CallResult)
    requires KeyedByArity(m.commandMap) && KeyedByArity(m.remainderCommandMap)
    ensures var text := event.contentDisplay;
      HandleSpec(m, injector, event, call) == Ignored <==>
        event.authorIsBot || |text| == 0 || text[0] != CommandPrefix || forall i :: 0 <= i < |text| ==> text[i] == CommandPrefix
    ensures HandleSpec(m, injector, event, call) == Ignored ==> Replies(HandleSpec(m, injector, event, call)) == []
  {
  }

  /**
   * A reply without a call is either the exact lookup's error or, for a
   * resolved command whose class the injector cannot provide, "Failed to
   * create instance " and the class's simple name; the remainder lookup's
   * messages are never sent.
   */
  lemma HandleReplied(m: CommandMapping, injector: Injector, event: MessageReceivedEvent, call: Invocation -> CallResult)
    requires KeyedByArity(m.commandMap) && KeyedByArity(m.remainderCommandMap)
    requires IsCommandText(event.contentDisplay)
    ensures var outcome := HandleSpec(m, injector, event, call);
      var command := Resolve(m, CommandParts(event.contentDisplay));
      outcome.Replied? ==>
        && (command.Error? ==>
              outcome.message == FindCommandSpec(m, CommandParts(event.contentDisplay)).message
              && outcome.message in {CommandNotFound, IncorrectParameterCount, NoMatchingParameterTypes})
        && (command.Success? ==>
              !injector.GetInstance(command.signature.clazz).Provided?
              && outcome.message == FailedToCreateInstance + command.signature.clazz.simpleName)
        && outcome.message != NoRemainderCommand && outcome.message != FailedToParseRemainder
  {
    ResolveFailure(m, CommandParts(event.contentDisplay));
  }

  /**
   * The command function is called exactly when a command resolves and the
   * injector provides an instance of its class; it is called on that
   * instance with the parsed arguments, and its result decides the reply.
   */
  lemma HandleInvoked(m: CommandMapping, injector: Injector, event: MessageReceivedEvent, call: Invocation -> CallResult)
    requires KeyedByArity(m.commandMap) && KeyedByArity(m.remainderCommandMap)
    ensures var outcome := HandleSpec(m, injector, event, call);
      var command := Resolve(m, CommandParts(event.contentDisplay));
      && (outcome.Invoked? <==>
            !event.authorIsBot && IsCommandText(event.contentDisplay) && command.Success?
            && injector.GetInstance(command.signature.clazz).Provided?)
      && (outcome.Invoked? ==>
            && outcome.invocation.instance == injector.GetInstance(command.signature.clazz).instance
            && outcome.invocation.func == command.signature.func
            && outcome.invocation.arguments == command.parameters
            && outcome.result == call(outcome.invocation)
            && (outcome.result.ThrewTarget? && outcome.result.message.Some? ==> Replies(outcome) == [outcome.result.message.value])
            && (outcome.result.Returned? || outcome.result.message.None? ==> Replies(outcome) == []))
  {
  }

}
