/**
 * The service that wires everything together: the parsers it registers, in
 * the order that decides matching priority, the table it loads with them,
 * the set of commands it offers for injection, and the handler it builds.
 */
module CommandService {
  import opened Wrappers
  import opened Platform
  import opened PublicCommandDataTypes
  import opened InternalCommandDataTypes
  import opened ArgumentParsers
  import opened CommandOrdering
  import opened CommandLoader
  import opened CommandHandling

  /** The parameter types of the registered parsers, highest priority first. */
  const ParserPriority: seq<ArgType> := [IntType, DoubleType, UserType, RoleType, TextChannelType, BooleanType, StringType]

  /** The parsers the service registers; the platform lookups and double conversion are parameters. */
  function RegisteredParsers(jda: Jda, toDoubleOrNull: string -> Option<real>): (parsers: seq<ArgumentParser>)
    ensures ParserTypes(parsers) == ParserPriority
  {
    [IntParser, DoubleParser(toDoubleOrNull), UserParser(jda), RoleParser(jda), TextChannelParser(jda), BooleanParser, StringParser]
  }

  /** Each registered type is served by its own parser, and no other type has one. */
  lemma RegisteredParserMap(jda: Jda, toDoubleOrNull: string -> Option<real>)
    ensures var parsers := RegisteredParsers(jda, toDoubleOrNull);
      && (forall t :: t in ParserMap(parsers) <==> t in ParserPriority)
      && (forall i :: 0 <= i < |parsers| ==> ParserPriority[i] in ParserMap(parsers) && ParserMap(parsers)[ParserPriority[i]] == parsers[i])
  {
    var parsers := RegisteredParsers(jda, toDoubleOrNull);
    forall i | 0 <= i < |parsers|
      ensures ParserPriority[i] in ParserMap(parsers) && ParserMap(parsers)[ParserPriority[i]] == parsers[i]
    {
      ParserMapLastWins(parsers, i);
    }
    assert ParserTypes(parsers) == ParserPriority;
  }

  predicate Distinct(types: seq<ArgType>) {
    forall i, j :: 0 <= i < j < |types| ==> types[i] != types[j]
  }

  /** In a list without repeats, a type's priority is its position. */
  lemma IndexOfDistinct(types: seq<ArgType>)
    requires Distinct(types)
    ensures forall i :: 0 <= i < |types| ==> IndexOf(types, types[i]) == i
  {
    forall i | 0 <= i < |types|
      ensures IndexOf(types, types[i]) == i
    {
      assert types[i] in types;
    }
  }

  lemma RegisteredDistinct()
    ensures Distinct(ParserPriority)
    ensures forall t: ArgType :: t.OtherType? ==> t !in ParserPriority
  {
  }

  /** A type's priority is its place in the registration list; a type without a parser has none. */
  lemma RegisteredPriorities(typeName: string)
    ensures forall i :: 0 <= i < |ParserPriority| ==> IndexOf(ParserPriority, ParserPriority[i]) == i
    ensures IndexOf(ParserPriority, OtherType(typeName)) == -1
  {
    RegisteredDistinct();
    IndexOfDistinct(ParserPriority);
  }

  /** The command descriptions of one table. */
  function TableCommands(table: CommandMap): set<CommandInfo> {
    set name, k, x | name in table && k in table[name] && x in table[name][k] :: x.commandInfo
  }

  /** The commands the service binds for injection: those of both tables. */
  function RegisteredCommands(m: CommandMapping): set<CommandInfo> {
    TableCommands(m.commandMap) + TableCommands(m.remainderCommandMap)
  }

  /** A table lists the descriptions of exactly the pairs with its remainder flag. */
  lemma TableCommandsOfPairs(pairs: seq<CommandPair>, parserTypes: seq<ArgType>, flag: bool)
    requires WellFormedPairs(pairs, parserTypes)
    ensures TableCommands(GetCommandMap(pairs, parserTypes, flag)) ==
      set p | p in pairs && p.1.commandInfo.hasRemainder == flag :: p.1.commandInfo
  {
    TableCommandsListed(pairs, parserTypes, flag);
    ListedTableCommands(pairs, parserTypes, flag);
  }

  lemma TableCommandsListed(pairs: seq<CommandPair>, parserTypes: seq<ArgType>, flag: bool)
    requires WellFormedPairs(pairs, parserTypes)
    ensures TableCommands(GetCommandMap(pairs, parserTypes, flag)) <=
      set p | p in pairs && p.1.commandInfo.hasRemainder == flag :: p.1.commandInfo
  {
    var table: CommandMap := GetCommandMap(pairs, parserTypes, flag);
    var listed := set p | p in pairs && p.1.commandInfo.hasRemainder == flag :: p.1.commandInfo;
    forall c | c in TableCommands(table)
      ensures c in listed
    {
      var name: string, k: int, x: InternalCommandInfo :| name in table && k in table[name] && x in table[name][k] && x.commandInfo == c;
      CommandMapEntry(pairs, parserTypes, flag, name, k, x);
    }
  }

  lemma ListedTableCommands(pairs: seq<CommandPair>, parserTypes: seq<ArgType>, flag: bool)
    requires WellFormedPairs(pairs, parserTypes)
    ensures (set p | p in pairs && p.1.commandInfo.hasRemainder == flag :: p.1.commandInfo) <=
      TableCommands(GetCommandMap(pairs, parserTypes, flag))
  {
    var table: CommandMap := GetCommandMap(pairs, parserTypes, flag);
    var listed := set p | p in pairs && p.1.commandInfo.hasRemainder == flag :: p.1.commandInfo;
    forall c | c in listed
      ensures c in TableCommands(table)
    {
      var p :| p in pairs && p.1.commandInfo.hasRemainder == flag && p.1.commandInfo == c;
      var i :| 0 <= i < |pairs| && pairs[i] == p;
      CommandMapComplete(pairs, parserTypes, flag, i);
    }
  }

  lemma SplitByRemainder(pairs: seq<CommandPair>)
    ensures (set p | p in pairs :: p.1.commandInfo) ==
      (set p | p in pairs && p.1.commandInfo.hasRemainder == false :: p.1.commandInfo) +
      (set p | p in pairs && p.1.commandInfo.hasRemainder == true :: p.1.commandInfo)
  {
    var exact := set p | p in pairs && p.1.commandInfo.hasRemainder == false :: p.1.commandInfo;
    var remainder := set p | p in pairs && p.1.commandInfo.hasRemainder == true :: p.1.commandInfo;
    forall c | c in set p | p in pairs :: p.1.commandInfo
      ensures c in exact + remainder
    {
      var p :| p in pairs && p.1.commandInfo == c;
      if p.1.commandInfo.hasRemainder {
        assert c in remainder;
      } else {
        assert c in exact;
      }
    }
  }

  /** The bound commands are exactly the descriptions of the loaded member functions. */
  lemma LoadedRegisteredCommands(defs: seq<DefinitionDescriptor>, argumentParsers: seq<ArgumentParser>)
    ensures RegisteredCommands(LoadCommandMapping(defs, argumentParsers)) ==
      set p | p in CommandInfoPairs(defs, ParserTypes(argumentParsers)) :: p.1.commandInfo
  {
    var parserTypes := ParserTypes(argumentParsers);
    var pairs := CommandInfoPairs(defs, parserTypes);
    TableCommandsOfPairs(pairs, parserTypes, false);
    TableCommandsOfPairs(pairs, parserTypes, true);
    SplitByRemainder(pairs);
  }

  /** The service's start-up: load the table with the registered parsers and hand it to a handler. */
  method CreateHandler(defs: seq<DefinitionDescriptor>, jda: Jda, toDoubleOrNull: string -> Option<real>, injector: Injector)
    returns (handler: CommandHandler)
    ensures fresh(handler) && handler.Valid()
    ensures handler.Mapping() == LoadCommandMapping(defs, RegisteredParsers(jda, toDoubleOrNull))
    ensures handler.injector == injector
  {
    var commandMapping := LoadCommandMapping(defs, RegisteredParsers(jda, toDoubleOrNull));
    handler := new CommandHandler(commandMapping, injector);
  }
}
