/**
 * The dispatcher on a concrete table: one command name `test` with a
 * no-parameter, an `(Int, Int)` and an `(Int, String)` overload, and the
 * remainder overloads `(String)` and `(Int, String)`, served by the integer
 * and string parsers.
 */
module HandlerScenarios {
  import opened Wrappers
  import opened PublicCommandDataTypes
  import opened InternalCommandDataTypes
  import opened ArgumentParsers
  import opened CommandText
  import opened CommandHandling

  const Definition := ClassRef("MockDefinition", "MockDefinition")

  function Parameter(name: string, t: ArgType): ParameterInfo {
    ParameterInfo(name, t, None)
  }

  function Command(parameters: seq<ParameterInfo>, hasRemainder: bool, id: nat): InternalCommandInfo {
    InternalCommandInfo(CommandInfo("test", parameters, None, None, hasRemainder), Definition, FunctionRef("test", id))
  }

  const NoParam := Command([], false, 0)
  const IntInt := Command([Parameter("int1", IntType), Parameter("int2", IntType)], false, 1)
  const IntString := Command([Parameter("int", IntType), Parameter("string", StringType)], false, 2)
  const StringRemainder := Command([Parameter("string", StringType)], true, 3)
  const IntStringRemainder := Command([Parameter("int", IntType), Parameter("string", StringType)], true, 4)

  function Table(): (m: CommandMapping)
    ensures KeyedByArity(m.commandMap) && KeyedByArity(m.remainderCommandMap)
  {
    CommandMapping(
      map["test" := map[0 := [NoParam], 2 := [IntInt, IntString]]],
      map["test" := map[1 := [StringRemainder], 2 := [IntStringRemainder]]],
      map[IntType := IntParser, StringType := StringParser])
  }

  lemma ParsesOne()
    ensures ToIntOrNull("1") == Some(1)
    ensures ToIntOrNull("foo") == None
  {
    assert DigitsValue("1") == 1 by {
      assert "1"[..0] == "";
    }
    NonDigitRejected("foo", 0);
  }

  /** `!test` calls the overload without parameters. */
  lemma NoParamCommand()
    ensures Resolve(Table(), ["test"]) == Success(NoParam, [])
  {
    assert FirstMatch(Table().argumentParsers, [NoParam], [], 0) == Some((0, []));
  }

  /** `!test 1 1` calls the `(Int, Int)` overload with 1 and 1. */
  lemma IntIntCommand()
    ensures Resolve(Table(), ["test", "1", "1"]) == Success(IntInt, [IntValue(1), IntValue(1)])
  {
    var m, args := Table(), ["1", "1"];
    ParsesOne();
    SelectFound(m.argumentParsers, [IntInt, IntString], args, NoMatchingParameterTypes, 0, [IntValue(1), IntValue(1)]);
    assert ["test", "1", "1"][1..] == args;
  }

  /** `!test 1 foo` passes over `(Int, Int)` and calls `(Int, String)` with 1 and "foo". */
  lemma IntStringCommand()
    ensures Resolve(Table(), ["test", "1", "foo"]) == Success(IntString, [IntValue(1), StringValue("foo")])
  {
    var m, args := Table(), ["1", "foo"];
    var candidates := [IntInt, IntString];
    ParsesOne();
    FirstMatchSkips(m.argumentParsers, candidates, args, 0, 1);
    SelectFound(m.argumentParsers, candidates, args, NoMatchingParameterTypes, 1, [IntValue(1), StringValue("foo")]);
    assert ["test", "1", "foo"][1..] == args;
  }

  /** `!test 1 foo bar star` has no exact overload and calls remainder `(Int, String)` with 1 and "foo bar star". */
  lemma IntStringRemainderCommand()
    ensures Resolve(Table(), ["test", "1", "foo", "bar", "star"]) ==
      Success(IntStringRemainder, [IntValue(1), StringValue("foo bar star")])
  {
    var m, parts := Table(), ["test", "1", "foo", "bar", "star"];
    var inputs := parts[1..];
    assert inputs == ["1", "foo", "bar", "star"];
    assert FindCommandSpec(m, parts) == Error(IncorrectParameterCount);
    var args := RemainderArguments(inputs, 2);
    assert inputs[1..] == ["foo", "bar", "star"];
    assert Join(inputs[1..], " ") == "foo bar star";
    assert args == ["1", "foo bar star"];
    ParsesOne();
    SelectFound(m.argumentParsers, [IntStringRemainder], args, FailedToParseRemainder, 0, [IntValue(1), StringValue("foo bar star")]);
    var buckets := m.remainderCommandMap["test"];
    assert RemainderSearch(m.argumentParsers, buckets, inputs, 4) == RemainderSearch(m.argumentParsers, buckets, inputs, 2);
  }

  /** `!test foo bar star` calls remainder `(String)` with "foo bar star", since "foo" is not an integer. */
  lemma StringRemainderCommand()
    ensures Resolve(Table(), ["test", "foo", "bar", "star"]) == Success(StringRemainder, [StringValue("foo bar star")])
  {
    var m, parts := Table(), ["test", "foo", "bar", "star"];
    var inputs := parts[1..];
    assert inputs == ["foo", "bar", "star"];
    assert FindCommandSpec(m, parts) == Error(IncorrectParameterCount);
    var buckets := m.remainderCommandMap["test"];
    StringRemainderRejectsTwo();
    var one := RemainderArguments(inputs, 1);
    assert inputs[..0] == [] && inputs[0..] == inputs;
    assert Join(inputs, " ") == "foo bar star";
    assert one == ["foo bar star"];
    SelectFound(m.argumentParsers, [StringRemainder], one, FailedToParseRemainder, 0, [StringValue("foo bar star")]);
    assert RemainderSearch(m.argumentParsers, buckets, inputs, 3) == RemainderSearch(m.argumentParsers, buckets, inputs, 1);
  }

  /** Split as `foo` and `bar star`, the remainder `(Int, String)` overload does not apply. */
  lemma StringRemainderRejectsTwo()
    ensures Select(Table().argumentParsers, Table().remainderCommandMap["test"][2],
      RemainderArguments(["foo", "bar", "star"], 2), FailedToParseRemainder) == Error(FailedToParseRemainder)
  {
    var m, inputs := Table(), ["foo", "bar", "star"];
    ParsesOne();
    var two := RemainderArguments(inputs, 2);
    assert inputs[..1] == ["foo"] && inputs[1..] == ["bar", "star"];
    assert Join(["bar", "star"], " ") == "bar star";
    assert two == ["foo", "bar star"];
    FirstMatchSkips(m.argumentParsers, [IntStringRemainder], two, 0, 0);
  }

  /** `!othercommand` is answered with "Command not found". */
  lemma UnknownCommand()
    ensures Resolve(Table(), ["othercommand"]) == Error(CommandNotFound)
  {
  }

  /** The text of the remainder scenario splits into the tokens used above. */
  lemma IntStringRemainderTokens()
    ensures CommandParts("!test 1 foo bar star") == ["test", "1", "foo", "bar", "star"]
  {
    var parts := ["test", "1", "foo", "bar", "star"];
    assert Join(parts[3..], " ") == "bar star";
    assert Join(parts[2..], " ") == "foo bar star";
    assert Join(parts[1..], " ") == "1 foo bar star";
    assert Join(parts, " ") == "test 1 foo bar star";
    assert forall i :: 0 <= i < |parts| ==> NoWhitespace(parts[i]);
    CommandPartsOfJoin(parts);
  }

  /** When the injector fails to provide the definition, `!test` is answered with "Failed to create instance MockDefinition" and nothing is called. */
  lemma InstantiationFailure(event: MessageReceivedEvent, call: Invocation -> CallResult)
    requires !event.authorIsBot && event.contentDisplay == "!test"
    ensures HandleSpec(Table(), Injector(map[Definition := ProvisionFailed("Oh dear")]), event, call) ==
      Replied(FailedToCreateInstance + "MockDefinition")
  {
    BareCommandText();
    NoParamCommand();
    var m, injector := Table(), Injector(map[Definition := ProvisionFailed("Oh dear")]);
    assert injector.GetInstance(NoParam.clazz) == ProvisionFailed("Oh dear");
    assert HandleSpec(m, injector, event, call) == Replied(FailedToCreateInstance + Definition.simpleName);
  }

  /** `!test` is command text naming `test` with no inputs. */
  lemma BareCommandText()
    ensures IsCommandText("!test") && CommandParts("!test") == ["test"]
  {
    assert "!test" == [CommandPrefix] + Join(["test"], " ");
    CommandPartsOfJoin(["test"]);
    assert RemovePrefixChars("!test")[0] == 't';
  }
}
