/**
 * The table builder on the loader's test definitions, with an integer and
 * a string parser registered in that order.
 */
module LoaderScenarios {
  import opened Wrappers
  import opened PublicCommandDataTypes
  import opened InternalCommandDataTypes
  import opened ArgumentParsers
  import opened CommandOrdering
  import opened CommandLoader

  const Types: seq<ArgType> := [IntType, StringType]

  const Definition := ClassRef("TestDefinition", "TestDefinition")
  const OtherDefinition := ClassRef("OtherTestDefinition", "OtherTestDefinition")

  function Info(clazz: ClassRef, parameters: seq<ParameterInfo>, id: nat): InternalCommandInfo {
    InternalCommandInfo(CommandInfo("test", parameters, None, None, false), clazz, FunctionRef("testCommand", id))
  }

  const IntString := Info(Definition, [ParameterInfo("int", IntType, None), ParameterInfo("string", StringType, None)], 1)
  const IntInt := Info(Definition, [ParameterInfo("int1", IntType, None), ParameterInfo("int2", IntType, None)], 2)
  const StringString := Info(OtherDefinition, [ParameterInfo("string1", StringType, None), ParameterInfo("string2", StringType, None)], 3)

  /** The priority keys of the three signatures: the registry index of each parameter type. */
  lemma BucketKeys()
    ensures PriorityKey(Types, IntInt) == [0, 0]
    ensures PriorityKey(Types, IntString) == [0, 1]
    ensures PriorityKey(Types, StringString) == [1, 1]
  {
    assert IndexOf(Types, IntType) == 0;
    assert IndexOf(Types, StringType) == 1 by {
      assert Types[1..] == [StringType];
    }
  }

  lemma BucketComparisons()
    ensures Compare(Types, IntInt, StringString) < 0
    ensures Compare(Types, IntString, IntInt) > 0
    ensures Compare(Types, IntString, StringString) < 0
  {
    BucketKeys();
    assert [0, 0][1..] == [0] && [0, 1][1..] == [1];
  }

  /**
   * The two-parameter bucket: found as `(Int, String)`, `(Int, Int)`,
   * `(String, String)`, it is ordered `(Int, Int)`, `(Int, String)`,
   * `(String, String)`, the integer parser ranking before the string parser.
   */
  lemma TwoParameterBucketOrder()
    ensures SortedWith(Types, [IntString, IntInt, StringString]) == [IntInt, IntString, StringString]
  {
    var tail := [IntInt, StringString];
    assert [IntString, IntInt, StringString] == [IntString] + tail;
    assert [IntInt, IntString, StringString] == tail[..1] + [IntString] + tail[1..];
    SortedTail();
    IntStringGoesSecond();
    InsertIntoSorted([IntString, IntInt, StringString], IntString, tail, 1, [IntInt, IntString, StringString]);
  }

  /** Sorting `x` in front of an already sorted bucket inserts it at its insertion point. */
  lemma InsertIntoSorted(bucket: seq<InternalCommandInfo>, x: InternalCommandInfo, s: seq<InternalCommandInfo>,
                         k: nat, r: seq<InternalCommandInfo>)
    requires bucket == [x] + s && SortedWith(Types, s) == s && InsertionPoint(Types, x, s) == k
    requires k <= |s| && r == s[..k] + [x] + s[k..]
    ensures SortedWith(Types, bucket) == r
  {
    assert bucket[1..] == s;
  }

  lemma SortedTail()
    ensures SortedWith(Types, [IntInt, StringString]) == [IntInt, StringString]
  {
    BucketComparisons();
    var last, tail := [StringString], [IntInt, StringString];
    assert SortedWith(Types, last) == last by {
      assert last[1..] == [];
    }
    assert tail[1..] == last;
    assert InsertionPoint(Types, IntInt, last) == 0;
    assert last[..0] + [IntInt] + last[0..] == tail;
  }

  lemma IntStringGoesSecond()
    ensures InsertionPoint(Types, IntString, [IntInt, StringString]) == 1
  {
    BucketComparisons();
    var last, tail := [StringString], [IntInt, StringString];
    assert tail[1..] == last;
    assert InsertionPoint(Types, IntString, last) == 0;
  }

  function Param(name: string, t: ArgType, remainder: bool): ParameterDescriptor {
    ParameterDescriptor(Some(name), t, None, remainder)
  }

  /**
   * Only a final `@Remainder String` makes a remainder command: `(Int,
   * @Remainder Int)` and `(@Remainder String, String)` are exact commands,
   * `(@Remainder String)` is a remainder command.
   */
  lemma RemainderFlags()
    ensures !CheckFunctionHasRemainder([Param("int1", IntType, false), Param("int2", IntType, true)])
    ensures !CheckFunctionHasRemainder([Param("string1", StringType, true), Param("string2", StringType, false)])
    ensures CheckFunctionHasRemainder([Param("string", StringType, true)])
  {
  }

  const TestDefinitionDescriptor := DefinitionDescriptor(Definition, true, [ConstructorDescriptor(true, 0, false)], None, [], [])

  /** A command with a `Double` parameter is dropped when no double parser is registered. */
  lemma DoubleParameterFiltered()
    ensures BuildCommandInfo(TestDefinitionDescriptor,
      FunctionDescriptor(FunctionRef("shouldBeFiltered", 4), Some("test"), [Param("double", DoubleType, false)], None, None, []),
      Types) == None
  {
    assert !AllParsable([Param("double", DoubleType, false)], Types) by {
      assert [Param("double", DoubleType, false)][0].paramType !in Types;
    }
  }

  /** A class prefix `prefix` turns the command `test` into `prefix test`. */
  lemma PrefixedName()
    ensures var d := DefinitionDescriptor(ClassRef("TestDefinitionWithPrefix", "TestDefinitionWithPrefix"), true,
                       [ConstructorDescriptor(true, 0, false)], Some("prefix"), [], []);
            var r := BuildCommandInfo(d, FunctionDescriptor(FunctionRef("testCommand", 5), Some("test"), [], None, None, []), Types);
            r.Some? && r.value.0 == "prefix test" && r.value.1.commandInfo.name == "prefix test"
  {
  }

  // ---------------------------------------------------------------------------
  // The whole loader test: four definitions, an integer and a string parser

  function Function(name: string, id: nat, command: string, parameters: seq<ParameterDescriptor>): FunctionDescriptor {
    FunctionDescriptor(FunctionRef(name, id), Some(command), parameters, None, None, [])
  }

  const PublicNullary := ConstructorDescriptor(true, 0, false)
  const PrefixDefinition := ClassRef("TestDefinitionWithPrefix", "TestDefinitionWithPrefix")
  const FilteredDefinition := ClassRef("FilteredTestDefinition", "FilteredTestDefinition")

  const BaseSummary := Some("A summary of the base command")
  const BaseRemarks := Some("Remarks on the base command")

  /** The member functions of the test's main definition, in declaration order. */
  const TestFunctions: seq<FunctionDescriptor> := [
    FunctionDescriptor(FunctionRef("testCommand", 0), Some("test"), [], BaseSummary, BaseRemarks, []),
    Function("testCommand", 1, "test", [Param("int", IntType, false), Param("string", StringType, false)]),
    Function("testCommand", 6, "test", [Param("int", IntType, false)]),
    Function("testCommand", 2, "test", [Param("int1", IntType, false), Param("int2", IntType, true)]),
    Function("testCommand", 7, "test", [Param("string", StringType, false)]),
    Function("shouldBeFiltered", 4, "test", [Param("double", DoubleType, false)]),
    Function("testCommandWithRemainder", 8, "test", [Param("string", StringType, true)]),
    Function("otherCommand", 9, "otherCommand", [])]

  /**
   * The test's definitions. Reflection would report them in no fixed order;
   * the result does not depend on it. The test declares these classes
   * `private`, which the loader's visibility filter would drop, while its
   * expected table lists their commands; they are given here as public so
   * that the scenario checks the expected table.
   */
  const TestDefinitions: seq<DefinitionDescriptor> := [
    DefinitionDescriptor(Definition, true, [PublicNullary], None, [], TestFunctions),
    DefinitionDescriptor(OtherDefinition, true, [ConstructorDescriptor(true, 1, true)], None, [],
      [Function("testCommand", 3, "test", [Param("string1", StringType, true), Param("string2", StringType, false)])]),
    DefinitionDescriptor(PrefixDefinition, true, [PublicNullary], Some("prefix"), [], [Function("testCommand", 5, "test", [])]),
    DefinitionDescriptor(FilteredDefinition, true, [ConstructorDescriptor(true, 1, false)], None, [],
      [Function("testCommand", 10, "test", [Param("int1", IntType, false), Param("int2", IntType, false), Param("int3", IntType, false)])])]

  const NoParameters := InternalCommandInfo(CommandInfo("test", [], BaseSummary, BaseRemarks, false), Definition, FunctionRef("testCommand", 0))
  const IntOnly := Info(Definition, [ParameterInfo("int", IntType, None)], 6)
  const StringOnly := Info(Definition, [ParameterInfo("string", StringType, None)], 7)
  const StringRemainder := InternalCommandInfo(CommandInfo("test", [ParameterInfo("string", StringType, None)], None, None, true),
                                               Definition, FunctionRef("testCommandWithRemainder", 8))
  const OtherCommand := InternalCommandInfo(CommandInfo("otherCommand", [], None, None, false), Definition, FunctionRef("otherCommand", 9))
  const PrefixTest := InternalCommandInfo(CommandInfo("prefix test", [], None, None, false), PrefixDefinition, FunctionRef("testCommand", 5))

  function Listed(r: Option<CommandPair>): seq<CommandPair> {
    if r.Some? then [r.value] else []
  }

  /** The commands of `fs` on `d`, one member function at a time. */
  function AllListed(d: DefinitionDescriptor, fs: seq<FunctionDescriptor>): seq<CommandPair> {
    if fs == [] then [] else Listed(BuildCommandInfo(d, fs[0], Types)) + AllListed(d, fs[1..])
  }

  lemma {:induction false} PairsOfAllListed(d: DefinitionDescriptor, fs: seq<FunctionDescriptor>)
    ensures PairsOf(d, fs, Types) == AllListed(d, fs)
  {
    if fs != [] {
      PairsOfAllListed(d, fs[1..]);
    }
  }

  lemma ListedFrom(d: DefinitionDescriptor, fs: seq<FunctionDescriptor>, k: nat)
    requires k < |fs|
    ensures AllListed(d, fs[k..]) == Listed(BuildCommandInfo(d, fs[k], Types)) + AllListed(d, fs[k + 1..])
  {
    assert fs[k..][0] == fs[k];
    assert fs[k..][1..] == fs[k + 1..];
  }

  lemma BuiltNoParameters()
    ensures BuildCommandInfo(TestDefinitions[0], TestFunctions[0], Types) == Some(("test", NoParameters))
  {
    assert BuildParameterInfo([]) == [];
  }

  lemma BuiltIntString()
    ensures BuildCommandInfo(TestDefinitions[0], TestFunctions[1], Types) == Some(("test", IntString))
  {
    assert BuildParameterInfo(TestFunctions[1].parameters) == IntString.commandInfo.parameters;
  }

  lemma BuiltIntOnly()
    ensures BuildCommandInfo(TestDefinitions[0], TestFunctions[2], Types) == Some(("test", IntOnly))
  {
    assert BuildParameterInfo(TestFunctions[2].parameters) == IntOnly.commandInfo.parameters;
  }

  lemma BuiltIntInt()
    ensures BuildCommandInfo(TestDefinitions[0], TestFunctions[3], Types) == Some(("test", IntInt))
  {
    assert BuildParameterInfo(TestFunctions[3].parameters) == IntInt.commandInfo.parameters;
  }

  lemma BuiltStringOnly()
    ensures BuildCommandInfo(TestDefinitions[0], TestFunctions[4], Types) == Some(("test", StringOnly))
  {
    assert BuildParameterInfo(TestFunctions[4].parameters) == StringOnly.commandInfo.parameters;
  }

  lemma BuiltFiltered()
    ensures BuildCommandInfo(TestDefinitions[0], TestFunctions[5], Types) == None
  {
    assert TestFunctions[5].parameters[0].paramType !in Types;
  }

  lemma BuiltStringRemainder()
    ensures BuildCommandInfo(TestDefinitions[0], TestFunctions[6], Types) == Some(("test", StringRemainder))
  {
    assert BuildParameterInfo(TestFunctions[6].parameters) == StringRemainder.commandInfo.parameters;
  }

  lemma BuiltOtherCommand()
    ensures BuildCommandInfo(TestDefinitions[0], TestFunctions[7], Types) == Some(("otherCommand", OtherCommand))
  {
    assert BuildParameterInfo([]) == [];
  }

  /** The last four member functions: the string command, the filtered one, the remainder command and `otherCommand`. */
  lemma TestFunctionsFromString()
    ensures AllListed(TestDefinitions[0], TestFunctions[4..]) ==
      [("test", StringOnly), ("test", StringRemainder), ("otherCommand", OtherCommand)]
  {
    var d, fs := TestDefinitions[0], TestFunctions;
    assert fs[8..] == [];
    BuiltOtherCommand();
    ListedFrom(d, fs, 7);
    var t7 := AllListed(d, fs[7..]);
    assert t7 == [("otherCommand", OtherCommand)];
    BuiltStringRemainder();
    ListedFrom(d, fs, 6);
    var t6 := AllListed(d, fs[6..]);
    assert t6 == [("test", StringRemainder)] + t7;
    BuiltFiltered();
    ListedFrom(d, fs, 5);
    BuiltStringOnly();
    ListedFrom(d, fs, 4);
  }

  lemma TestFunctionsFromIntOnly()
    ensures AllListed(TestDefinitions[0], TestFunctions[2..]) ==
      [("test", IntOnly), ("test", IntInt), ("test", StringOnly), ("test", StringRemainder), ("otherCommand", OtherCommand)]
  {
    var d, fs := TestDefinitions[0], TestFunctions;
    TestFunctionsFromString();
    BuiltIntInt();
    ListedFrom(d, fs, 3);
    BuiltIntOnly();
    ListedFrom(d, fs, 2);
  }

  lemma TestFunctionsListed()
    ensures AllListed(TestDefinitions[0], TestFunctions) ==
      [("test", NoParameters), ("test", IntString), ("test", IntOnly), ("test", IntInt), ("test", StringOnly),
       ("test", StringRemainder), ("otherCommand", OtherCommand)]
  {
    var d, fs := TestDefinitions[0], TestFunctions;
    TestFunctionsFromIntOnly();
    BuiltIntString();
    ListedFrom(d, fs, 1);
    BuiltNoParameters();
    ListedFrom(d, fs, 0);
    assert fs[0..] == fs;
  }

  /** The main test definition yields seven commands, in member function order; `shouldBeFiltered` is dropped. */
  lemma TestFunctionCommands()
    ensures BuildCommandInfoPairs(TestDefinitions[0], Types) ==
      [("test", NoParameters), ("test", IntString), ("test", IntOnly), ("test", IntInt), ("test", StringOnly),
       ("test", StringRemainder), ("otherCommand", OtherCommand)]
  {
    TestFunctionsListed();
    PairsOfAllListed(TestDefinitions[0], TestFunctions);
  }

  lemma OtherDefinitionListed()
    ensures AllListed(TestDefinitions[1], TestDefinitions[1].memberFunctions) == [("test", StringString)]
  {
    var d := TestDefinitions[1];
    var f := d.memberFunctions[0];
    assert BuildParameterInfo(f.parameters) == StringString.commandInfo.parameters;
    assert BuildCommandInfo(d, f, Types) == Some(("test", StringString));
    assert d.memberFunctions[1..] == [];
  }

  lemma PrefixDefinitionListed()
    ensures AllListed(TestDefinitions[2], TestDefinitions[2].memberFunctions) == [("prefix test", PrefixTest)]
  {
    var d := TestDefinitions[2];
    assert BuildParameterInfo([]) == [];
    assert QualifiedName(Some("prefix"), "test") == "prefix test";
    assert BuildCommandInfo(d, d.memberFunctions[0], Types) == Some(("prefix test", PrefixTest));
    assert d.memberFunctions[1..] == [];
  }

  /** Every command the loader finds in the test's definitions, in discovery order. */
  const TestPairs: seq<CommandPair> := [
    ("test", NoParameters), ("test", IntString), ("test", IntOnly), ("test", IntInt), ("test", StringOnly),
    ("test", StringRemainder), ("otherCommand", OtherCommand), ("test", StringString), ("prefix test", PrefixTest)]

  /** The commands of the loadable definitions among `defs`, one definition at a time. */
  function AllLoaded(defs: seq<DefinitionDescriptor>): seq<CommandPair> {
    if defs == [] then []
    else (if IsLoadable(defs[0]) then AllListed(defs[0], defs[0].memberFunctions) else []) + AllLoaded(defs[1..])
  }

  lemma {:induction false} CommandInfoPairsAllLoaded(defs: seq<DefinitionDescriptor>)
    ensures CommandInfoPairs(defs, Types) == AllLoaded(defs)
  {
    if defs != [] {
      CommandInfoPairsAllLoaded(defs[1..]);
      PairsOfAllListed(defs[0], defs[0].memberFunctions);
    }
  }

  lemma LoadedFrom(defs: seq<DefinitionDescriptor>, k: nat)
    requires k < |defs|
    ensures AllLoaded(defs[k..]) ==
      (if IsLoadable(defs[k]) then AllListed(defs[k], defs[k].memberFunctions) else []) + AllLoaded(defs[k + 1..])
  {
    assert defs[k..][0] == defs[k];
    assert defs[k..][1..] == defs[k + 1..];
  }

  lemma TestLoadability()
    ensures IsLoadable(TestDefinitions[0]) && IsLoadable(TestDefinitions[1]) && IsLoadable(TestDefinitions[2])
    ensures !IsLoadable(TestDefinitions[3])
  {
    var defs := TestDefinitions;
    assert defs[0].constructors[0] == PublicNullary;
    assert defs[1].constructors[0].injectAnnotated;
    assert defs[2].constructors[0] == PublicNullary;
  }

  lemma LoadedAfterTestDefinition()
    ensures AllLoaded(TestDefinitions[1..]) == [("test", StringString), ("prefix test", PrefixTest)]
  {
    var defs := TestDefinitions;
    TestLoadability();
    OtherDefinitionListed();
    PrefixDefinitionListed();
    assert defs[4..] == [];
    LoadedFrom(defs, 3);
    LoadedFrom(defs, 2);
    LoadedFrom(defs, 1);
  }

  lemma TestDefinitionsLoaded()
    ensures AllLoaded(TestDefinitions) == TestPairs
  {
    var defs := TestDefinitions;
    TestLoadability();
    assert defs[0].memberFunctions == TestFunctions;
    TestFunctionsListed();
    LoadedAfterTestDefinition();
    LoadedFrom(defs, 0);
    assert defs[0..] == defs;
  }

  /**
   * The three public definitions with a usable constructor are loaded;
   * `FilteredTestDefinition`, whose only constructor takes a parameter
   * without `@Inject`, is not.
   */
  lemma TestCommandInfoPairs()
    ensures CommandInfoPairs(TestDefinitions, Types) == TestPairs
  {
    TestDefinitionsLoaded();
    CommandInfoPairsAllLoaded(TestDefinitions);
  }

  // ---------------------------------------------------------------------------
  // Grouping the test's commands into the two tables

  /** The exact commands among `TestPairs`, in discovery order. */
  const ExactPairs: seq<CommandPair> := [
    ("test", NoParameters), ("test", IntString), ("test", IntOnly), ("test", IntInt), ("test", StringOnly),
    ("otherCommand", OtherCommand), ("test", StringString), ("prefix test", PrefixTest)]

  /** The pairs with remainder flag `flag`, one pair at a time. */
  function Flagged(pairs: seq<CommandPair>, flag: bool): seq<CommandPair> {
    if pairs == [] then []
    else (if pairs[0].1.commandInfo.hasRemainder == flag then [pairs[0]] else []) + Flagged(pairs[1..], flag)
  }

  lemma {:induction false} KeptFlagged(pairs: seq<CommandPair>, flag: bool)
    ensures Kept(pairs, flag) == Flagged(pairs, flag)
  {
    if pairs != [] {
      KeptFlagged(pairs[1..], flag);
    }
  }

  lemma FlaggedFrom(pairs: seq<CommandPair>, flag: bool, k: nat)
    requires k < |pairs|
    ensures Flagged(pairs[k..], flag) ==
      (if pairs[k].1.commandInfo.hasRemainder == flag then [pairs[k]] else []) + Flagged(pairs[k + 1..], flag)
  {
    assert pairs[k..][0] == pairs[k];
    assert pairs[k..][1..] == pairs[k + 1..];
  }

  lemma FlaggedTail(flag: bool)
    ensures Flagged(TestPairs[5..], flag) ==
      if flag then [("test", StringRemainder)]
      else [("otherCommand", OtherCommand), ("test", StringString), ("prefix test", PrefixTest)]
  {
    var ps := TestPairs;
    assert ps[9..] == [];
    FlaggedFrom(ps, flag, 8);
    FlaggedFrom(ps, flag, 7);
    FlaggedFrom(ps, flag, 6);
    FlaggedFrom(ps, flag, 5);
  }

  lemma FlaggedExact()
    ensures Flagged(TestPairs, false) == ExactPairs
  {
    var ps := TestPairs;
    FlaggedExactMiddle();
    FlaggedFrom(ps, false, 1);
    FlaggedFrom(ps, false, 0);
    assert ps[0..] == ps;
  }

  lemma FlaggedExactMiddle()
    ensures Flagged(TestPairs[2..], false) == ExactPairs[2..]
  {
    var ps := TestPairs;
    FlaggedTail(false);
    FlaggedFrom(ps, false, 4);
    FlaggedFrom(ps, false, 3);
    FlaggedFrom(ps, false, 2);
  }

  lemma FlaggedRemainder()
    ensures Flagged(TestPairs, true) == [("test", StringRemainder)]
  {
    var ps := TestPairs;
    FlaggedTail(true);
    FlaggedFrom(ps, true, 4);
    FlaggedFrom(ps, true, 3);
    FlaggedFrom(ps, true, 2);
    FlaggedFrom(ps, true, 1);
    FlaggedFrom(ps, true, 0);
    assert ps[0..] == ps;
  }

  /** Only `testCommandWithRemainder` goes to the remainder table. */
  lemma TestPairsSplit()
    ensures Kept(TestPairs, false) == ExactPairs
    ensures Kept(TestPairs, true) == [("test", StringRemainder)]
  {
    KeptFlagged(TestPairs, false);
    KeptFlagged(TestPairs, true);
    FlaggedExact();
    FlaggedRemainder();
  }

  /** The signature of `p` when it is listed under `name` with `k` parameters. */
  function Pick(p: CommandPair, name: string, k: int): seq<InternalCommandInfo> {
    if p.0 == name && |p.1.commandInfo.parameters| == k then [p.1] else []
  }

  /** The commands listed under `name` with `k` parameters, one pair at a time. */
  function Grouped(pairs: seq<CommandPair>, name: string, k: int): seq<InternalCommandInfo> {
    if pairs == [] then [] else Pick(pairs[0], name, k) + Grouped(pairs[1..], name, k)
  }

  lemma {:induction false} BucketGrouped(pairs: seq<CommandPair>, name: string, k: int)
    ensures Bucket(pairs, name, k) == Grouped(pairs, name, k)
  {
    if pairs != [] {
      BucketGrouped(pairs[1..], name, k);
    }
  }

  lemma GroupedFrom(pairs: seq<CommandPair>, name: string, k: int, i: nat)
    requires i < |pairs|
    ensures Grouped(pairs[i..], name, k) == Pick(pairs[i], name, k) + Grouped(pairs[i + 1..], name, k)
  {
    assert pairs[i..][0] == pairs[i];
    assert pairs[i..][1..] == pairs[i + 1..];
  }

  /** Four steps of `Grouped` from position `i`. */
  lemma GroupedFour(pairs: seq<CommandPair>, name: string, k: int, i: nat)
    requires i + 4 <= |pairs|
    ensures Grouped(pairs[i..], name, k)
         == Pick(pairs[i], name, k) + (Pick(pairs[i + 1], name, k) + (Pick(pairs[i + 2], name, k)
          + (Pick(pairs[i + 3], name, k) + Grouped(pairs[i + 4..], name, k))))
  {
    GroupedFrom(pairs, name, k, i + 3);
    GroupedFrom(pairs, name, k, i + 2);
    GroupedFrom(pairs, name, k, i + 1);
    GroupedFrom(pairs, name, k, i);
  }

  /** `Grouped` over eight pairs, one pair at a time. */
  lemma GroupedEight(pairs: seq<CommandPair>, name: string, k: int)
    requires |pairs| == 8
    ensures Grouped(pairs, name, k)
         == Pick(pairs[0], name, k) + (Pick(pairs[1], name, k) + (Pick(pairs[2], name, k) + (Pick(pairs[3], name, k)
          + (Pick(pairs[4], name, k) + (Pick(pairs[5], name, k) + (Pick(pairs[6], name, k) + Pick(pairs[7], name, k)))))))
  {
    GroupedFour(pairs, name, k, 0);
    GroupedFour(pairs, name, k, 4);
    assert pairs[0..] == pairs;
    assert pairs[8..] == [];
    assert Pick(pairs[7], name, k) + Grouped(pairs[8..], name, k) == Pick(pairs[7], name, k);
  }

  lemma ExactGroupedAll(name: string, k: int)
    ensures var e := ExactPairs;
      Grouped(e, name, k) == Pick(e[0], name, k) + (Pick(e[1], name, k) + (Pick(e[2], name, k) + (Pick(e[3], name, k)
                           + (Pick(e[4], name, k) + (Pick(e[5], name, k) + (Pick(e[6], name, k) + Pick(e[7], name, k)))))))
  {
    GroupedEight(ExactPairs, name, k);
  }

  lemma ExactBucketTest0()
    ensures Bucket(ExactPairs, "test", 0) == [NoParameters]
  {
    var e := ExactPairs;
    BucketGrouped(e, "test", 0);
    ExactGroupedAll("test", 0);
    assert Pick(e[1], "test", 0) == [] && Pick(e[2], "test", 0) == [] && Pick(e[3], "test", 0) == [];
    assert Pick(e[4], "test", 0) == [] && Pick(e[5], "test", 0) == [] && Pick(e[6], "test", 0) == [];
    assert Pick(e[0], "test", 0) == [NoParameters] && Pick(e[7], "test", 0) == [];
  }

  lemma ExactGroupedTest1()
    ensures Grouped(ExactPairs, "test", 1) == [IntOnly, StringOnly]
  {
    var e := ExactPairs;
    ExactGroupedAll("test", 1);
    assert Pick(e[0], "test", 1) == [] && Pick(e[1], "test", 1) == [] && Pick(e[3], "test", 1) == [];
    assert Pick(e[5], "test", 1) == [] && Pick(e[6], "test", 1) == [] && Pick(e[7], "test", 1) == [];
    assert Pick(e[2], "test", 1) == [IntOnly] && Pick(e[4], "test", 1) == [StringOnly];
  }

  lemma ExactBucketTest1()
    ensures Bucket(ExactPairs, "test", 1) == [IntOnly, StringOnly]
  {
    ExactGroupedTest1();
    BucketGrouped(ExactPairs, "test", 1);
  }

  lemma ExactGroupedTest2()
    ensures Grouped(ExactPairs, "test", 2) == [IntString, IntInt, StringString]
  {
    var e := ExactPairs;
    ExactGroupedAll("test", 2);
    assert Pick(e[0], "test", 2) == [] && Pick(e[2], "test", 2) == [] && Pick(e[4], "test", 2) == [];
    assert Pick(e[5], "test", 2) == [] && Pick(e[7], "test", 2) == [];
    assert Pick(e[1], "test", 2) == [IntString] && Pick(e[3], "test", 2) == [IntInt] && Pick(e[6], "test", 2) == [StringString];
  }

  lemma ExactBucketTest2()
    ensures Bucket(ExactPairs, "test", 2) == [IntString, IntInt, StringString]
  {
    ExactGroupedTest2();
    BucketGrouped(ExactPairs, "test", 2);
  }

  lemma ExactBucketOther()
    ensures Bucket(ExactPairs, "otherCommand", 0) == [OtherCommand]
  {
    var e := ExactPairs;
    BucketGrouped(e, "otherCommand", 0);
    ExactGroupedAll("otherCommand", 0);
    assert Pick(e[0], "otherCommand", 0) == [] && Pick(e[1], "otherCommand", 0) == [] && Pick(e[2], "otherCommand", 0) == [];
    assert Pick(e[3], "otherCommand", 0) == [] && Pick(e[4], "otherCommand", 0) == [] && Pick(e[6], "otherCommand", 0) == [];
    assert Pick(e[5], "otherCommand", 0) == [OtherCommand] && Pick(e[7], "otherCommand", 0) == [];
  }

  lemma ExactBucketPrefix()
    ensures Bucket(ExactPairs, "prefix test", 0) == [PrefixTest]
  {
    var e := ExactPairs;
    BucketGrouped(e, "prefix test", 0);
    ExactGroupedAll("prefix test", 0);
    assert Pick(e[0], "prefix test", 0) == [] && Pick(e[1], "prefix test", 0) == [] && Pick(e[2], "prefix test", 0) == [];
    assert Pick(e[3], "prefix test", 0) == [] && Pick(e[4], "prefix test", 0) == [] && Pick(e[5], "prefix test", 0) == [];
    assert Pick(e[6], "prefix test", 0) == [] && Pick(e[7], "prefix test", 0) == [PrefixTest];
  }

  /** The names of `pairs`, one pair at a time. */
  function NameList(pairs: seq<CommandPair>): set<string> {
    if pairs == [] then {} else {pairs[0].0} + NameList(pairs[1..])
  }

  /** The parameter counts listed under `name` in `pairs`, one pair at a time. */
  function ArityList(pairs: seq<CommandPair>, name: string): set<int> {
    if pairs == [] then {}
    else (if pairs[0].0 == name then {|pairs[0].1.commandInfo.parameters|} else {}) + ArityList(pairs[1..], name)
  }

  lemma {:induction false} NamesListed(pairs: seq<CommandPair>)
    ensures Names(pairs) == NameList(pairs)
  {
    if pairs != [] {
      NamesListed(pairs[1..]);
      assert forall p :: p in pairs <==> p == pairs[0] || p in pairs[1..];
    }
  }

  lemma {:induction false} AritiesListed(pairs: seq<CommandPair>, name: string)
    ensures Arities(pairs, name) == ArityList(pairs, name)
  {
    if pairs != [] {
      AritiesListed(pairs[1..], name);
      assert forall p :: p in pairs <==> p == pairs[0] || p in pairs[1..];
    }
  }

  lemma NameListFrom(pairs: seq<CommandPair>, i: nat)
    requires i < |pairs|
    ensures NameList(pairs[i..]) == {pairs[i].0} + NameList(pairs[i + 1..])
  {
    assert pairs[i..][0] == pairs[i];
    assert pairs[i..][1..] == pairs[i + 1..];
  }

  lemma ArityListFrom(pairs: seq<CommandPair>, name: string, i: nat)
    requires i < |pairs|
    ensures ArityList(pairs[i..], name) ==
      (if pairs[i].0 == name then {|pairs[i].1.commandInfo.parameters|} else {}) + ArityList(pairs[i + 1..], name)
  {
    assert pairs[i..][0] == pairs[i];
    assert pairs[i..][1..] == pairs[i + 1..];
  }

  lemma ExactNameList()
    ensures NameList(ExactPairs) == {"test", "otherCommand", "prefix test"}
  {
    var e := ExactPairs;
    assert e[8..] == [];
    NameListFrom(e, 7);
    NameListFrom(e, 6);
    NameListFrom(e, 5);
    NameListFrom(e, 4);
    NameListFrom(e, 3);
    NameListFrom(e, 2);
    NameListFrom(e, 1);
    NameListFrom(e, 0);
    assert e[0..] == e;
  }

  lemma ExactArityList(name: string)
    ensures var e := ExactPairs;
      ArityList(e, name) ==
        (if name == "test" then {0, 2, 1} else {}) + (if name == "otherCommand" then {0} else {})
        + (if name == "prefix test" then {0} else {})
  {
    var e := ExactPairs;
    assert e[8..] == [];
    ArityListFrom(e, name, 7);
    ArityListFrom(e, name, 6);
    ArityListFrom(e, name, 5);
    ArityListFrom(e, name, 4);
    ArityListFrom(e, name, 3);
    ArityListFrom(e, name, 2);
    ArityListFrom(e, name, 1);
    ArityListFrom(e, name, 0);
    assert e[0..] == e;
  }

  /** The exact table has the three command names, `test` with zero, one and two parameters. */
  lemma ExactNames()
    ensures Names(ExactPairs) == {"test", "otherCommand", "prefix test"}
    ensures Arities(ExactPairs, "test") == {0, 1, 2}
    ensures Arities(ExactPairs, "otherCommand") == {0}
    ensures Arities(ExactPairs, "prefix test") == {0}
  {
    NamesListed(ExactPairs);
    ExactNameList();
    AritiesListed(ExactPairs, "test");
    AritiesListed(ExactPairs, "otherCommand");
    AritiesListed(ExactPairs, "prefix test");
    ExactArityList("test");
    ExactArityList("otherCommand");
    ExactArityList("prefix test");
  }

  lemma RemainderTable()
    ensures var r := [("test", StringRemainder)];
      && Names(r) == {"test"} && Arities(r, "test") == {1}
      && Bucket(r, "test", 1) == [StringRemainder]
  {
    var r := [("test", StringRemainder)];
    assert r[0] in r;
    assert r[1..] == [];
  }

  lemma SortedSingle(x: InternalCommandInfo)
    ensures SortedWith(Types, [x]) == [x]
  {
    assert [x][1..] == [];
  }

  /** The one-parameter bucket keeps its order: the integer command ranks before the string command. */
  lemma OneParameterBucketOrder()
    ensures SortedWith(Types, [IntOnly, StringOnly]) == [IntOnly, StringOnly]
  {
    var last := [StringOnly];
    assert [IntOnly, StringOnly] == [IntOnly] + last;
    assert last[..0] + [IntOnly] + last[0..] == [IntOnly, StringOnly];
    SortedSingle(StringOnly);
    IntOnlyGoesFirst();
    InsertIntoSorted([IntOnly, StringOnly], IntOnly, last, 0, [IntOnly, StringOnly]);
  }

  lemma IntOnlyGoesFirst()
    ensures InsertionPoint(Types, IntOnly, [StringOnly]) == 0
  {
    assert IndexOf(Types, IntType) == 0;
    assert IndexOf(Types, StringType) == 1 by {
      assert Types[1..] == [StringType];
    }
    assert PriorityKey(Types, IntOnly) == [0];
    assert PriorityKey(Types, StringOnly) == [1];
    assert Compare(Types, IntOnly, StringOnly) < 0;
  }

  /** The exact table the loader test expects. */
  const ExpectedCommandMap: CommandMap := map[
    "test" := map[0 := [NoParameters], 1 := [IntOnly, StringOnly], 2 := [IntInt, IntString, StringString]],
    "otherCommand" := map[0 := [OtherCommand]],
    "prefix test" := map[0 := [PrefixTest]]]

  /** The remainder table the loader test expects. */
  const ExpectedRemainderMap: CommandMap := map["test" := map[1 := [StringRemainder]]]

  /** The entry of a name whose commands all take `k` parameters. */
  lemma OneArityEntry(pairs: seq<CommandPair>, name: string, k: int, sorted: seq<InternalCommandInfo>)
    requires Arities(pairs, name) == {k}
    requires SortedWith(Types, Bucket(pairs, name, k)) == sorted
    ensures Grouping(pairs, Types, name) == map[k := sorted]
  {
    var m := Grouping(pairs, Types, name);
    assert m.Keys == {k};
    OneKey(m, k, sorted);
  }

  lemma OneKey(m: map<int, seq<InternalCommandInfo>>, k: int, v: seq<InternalCommandInfo>)
    requires m.Keys == {k} && m[k] == v
    ensures m == map[k := v]
  {
  }

  /** The entry of a name with commands of zero, one and two parameters. */
  lemma ThreeArityEntry(pairs: seq<CommandPair>, name: string, s0: seq<InternalCommandInfo>,
                        s1: seq<InternalCommandInfo>, s2: seq<InternalCommandInfo>)
    requires Arities(pairs, name) == {0, 1, 2}
    requires SortedWith(Types, Bucket(pairs, name, 0)) == s0
    requires SortedWith(Types, Bucket(pairs, name, 1)) == s1
    requires SortedWith(Types, Bucket(pairs, name, 2)) == s2
    ensures Grouping(pairs, Types, name) == map[0 := s0, 1 := s1, 2 := s2]
  {
    var m := Grouping(pairs, Types, name);
    assert m.Keys == {0, 1, 2};
    ThreeKeys(m, s0, s1, s2);
  }

  lemma ThreeKeys(m: map<int, seq<InternalCommandInfo>>, s0: seq<InternalCommandInfo>,
                  s1: seq<InternalCommandInfo>, s2: seq<InternalCommandInfo>)
    requires m.Keys == {0, 1, 2} && m[0] == s0 && m[1] == s1 && m[2] == s2
    ensures m == map[0 := s0, 1 := s1, 2 := s2]
  {
  }

  lemma SortedTest0()
    ensures SortedWith(Types, Bucket(ExactPairs, "test", 0)) == [NoParameters]
  {
    ExactBucketTest0();
    SortedSingle(NoParameters);
  }

  lemma SortedTest1()
    ensures SortedWith(Types, Bucket(ExactPairs, "test", 1)) == [IntOnly, StringOnly]
  {
    ExactBucketTest1();
    OneParameterBucketOrder();
  }

  lemma SortedTest2()
    ensures SortedWith(Types, Bucket(ExactPairs, "test", 2)) == [IntInt, IntString, StringString]
  {
    ExactBucketTest2();
    TwoParameterBucketOrder();
  }

  lemma SortedOther()
    ensures SortedWith(Types, Bucket(ExactPairs, "otherCommand", 0)) == [OtherCommand]
  {
    ExactBucketOther();
    SortedSingle(OtherCommand);
  }

  lemma SortedPrefix()
    ensures SortedWith(Types, Bucket(ExactPairs, "prefix test", 0)) == [PrefixTest]
  {
    ExactBucketPrefix();
    SortedSingle(PrefixTest);
  }

  /** The table built from `pairs` for the names in `names`, as `getCommandMap` builds it. */
  lemma ThreeNames(names: set<string>, pairs: seq<CommandPair>, e0: map<int, seq<InternalCommandInfo>>,
                   e1: map<int, seq<InternalCommandInfo>>, e2: map<int, seq<InternalCommandInfo>>)
    requires names == {"test", "otherCommand", "prefix test"}
    requires Grouping(pairs, Types, "test") == e0
    requires Grouping(pairs, Types, "otherCommand") == e1
    requires Grouping(pairs, Types, "prefix test") == e2
    ensures (map name | name in names :: Grouping(pairs, Types, name))
      == map["test" := e0, "otherCommand" := e1, "prefix test" := e2]
  {
    var m := map name | name in names :: Grouping(pairs, Types, name);
    assert m.Keys == {"test", "otherCommand", "prefix test"};
    ThreeNameKeys(m, e0, e1, e2);
  }

  lemma ThreeNameKeys(m: CommandMap, e0: map<int, seq<InternalCommandInfo>>,
                      e1: map<int, seq<InternalCommandInfo>>, e2: map<int, seq<InternalCommandInfo>>)
    requires m.Keys == {"test", "otherCommand", "prefix test"}
    requires m["test"] == e0 && m["otherCommand"] == e1 && m["prefix test"] == e2
    ensures m == map["test" := e0, "otherCommand" := e1, "prefix test" := e2]
  {
  }

  lemma TestGrouping()
    ensures Grouping(ExactPairs, Types, "test") == map[0 := [NoParameters], 1 := [IntOnly, StringOnly], 2 := [IntInt, IntString, StringString]]
  {
    var e := ExactPairs;
    ExactNames();
    SortedTest0();
    SortedTest1();
    SortedTest2();
    ThreeArityEntry(e, "test", [NoParameters], [IntOnly, StringOnly], [IntInt, IntString, StringString]);
  }

  lemma OtherGroupings()
    ensures Grouping(ExactPairs, Types, "otherCommand") == map[0 := [OtherCommand]]
    ensures Grouping(ExactPairs, Types, "prefix test") == map[0 := [PrefixTest]]
  {
    var e := ExactPairs;
    ExactNames();
    SortedOther();
    SortedPrefix();
    OneArityEntry(e, "otherCommand", 0, [OtherCommand]);
    OneArityEntry(e, "prefix test", 0, [PrefixTest]);
  }

  /** `getCommandMap` once the pairs with the requested flag are known. */
  lemma TableOfKept(pairs: seq<CommandPair>, flag: bool, kept: seq<CommandPair>)
    requires Kept(pairs, flag) == kept
    ensures GetCommandMap(pairs, Types, flag) == map name | name in Names(kept) :: Grouping(kept, Types, name)
  {
  }

  lemma ExactTable()
    ensures GetCommandMap(TestPairs, Types, false) == ExpectedCommandMap
  {
    var e := ExactPairs;
    TestPairsSplit();
    TableOfKept(TestPairs, false, e);
    ExactNames();
    TestGrouping();
    OtherGroupings();
    ThreeNames(Names(e), e, map[0 := [NoParameters], 1 := [IntOnly, StringOnly], 2 := [IntInt, IntString, StringString]],
      map[0 := [OtherCommand]], map[0 := [PrefixTest]]);
  }

  lemma RemainderGrouping()
    ensures Grouping([("test", StringRemainder)], Types, "test") == map[1 := [StringRemainder]]
  {
    var r := [("test", StringRemainder)];
    RemainderTable();
    SortedSingle(StringRemainder);
    OneArityEntry(r, "test", 1, [StringRemainder]);
  }

  lemma OneName(names: set<string>, pairs: seq<CommandPair>, name: string, entry: map<int, seq<InternalCommandInfo>>)
    requires names == {name}
    requires Grouping(pairs, Types, name) == entry
    ensures (map n | n in names :: Grouping(pairs, Types, n)) == map[name := entry]
  {
  }

  lemma RemainderTableBuilt()
    ensures GetCommandMap(TestPairs, Types, true) == ExpectedRemainderMap
  {
    var r := [("test", StringRemainder)];
    TestPairsSplit();
    TableOfKept(TestPairs, true, r);
    RemainderTable();
    RemainderGrouping();
    OneName(Names(r), r, "test", map[1 := [StringRemainder]]);
  }

  /** The loader's three tables, once the parser types and the discovered pairs are known. */
  lemma MappingOf(defs: seq<DefinitionDescriptor>, parsers: seq<ArgumentParser>, pairs: seq<CommandPair>)
    requires ParserTypes(parsers) == Types && CommandInfoPairs(defs, Types) == pairs
    ensures var cm := LoadCommandMapping(defs, parsers);
      && cm.commandMap == GetCommandMap(pairs, Types, false)
      && cm.remainderCommandMap == GetCommandMap(pairs, Types, true)
      && cm.argumentParsers == ParserMap(parsers)
  {
  }

  lemma TestParserMap()
    ensures var pm := ParserMap([IntParser, StringParser]);
      pm.Keys == {IntType, StringType} && pm[IntType].IntParser? && pm[StringType].StringParser?
  {
    var ps := [IntParser, StringParser];
    assert ps[..1] == [IntParser];
    assert [IntParser][..0] == [];
  }

  /**
   * The loader test end to end: with an integer and a string parser
   * registered, the four definitions yield exactly the expected exact and
   * remainder tables, and the parser map serves both types.
   */
  lemma LoadedTestMapping()
    ensures var cm := LoadCommandMapping(TestDefinitions, [IntParser, StringParser]);
      && cm.commandMap == ExpectedCommandMap
      && cm.remainderCommandMap == ExpectedRemainderMap
      && cm.argumentParsers.Keys == {IntType, StringType}
      && cm.argumentParsers[IntType].IntParser? && cm.argumentParsers[StringType].StringParser?
  {
    assert ParserTypes([IntParser, StringParser]) == Types;
    TestCommandInfoPairs();
    MappingOf(TestDefinitions, [IntParser, StringParser], TestPairs);
    ExactTable();
    RemainderTableBuilt();
    TestParserMap();
  }

  /**
   * As the test declares them, the definition classes are `private`, and the
   * loader's visibility filter leaves no command at all.
   */
  lemma {:induction false} PrivateDefinitionsIgnored(defs: seq<DefinitionDescriptor>, parserTypes: seq<ArgType>)
    requires forall i :: 0 <= i < |defs| ==> !defs[i].isPublic
    ensures CommandInfoPairs(defs, parserTypes) == []
  {
    if defs != [] {
      assert forall i :: 0 <= i < |defs[1..]| ==> defs[1..][i] == defs[i + 1];
      PrivateDefinitionsIgnored(defs[1..], parserTypes);
    }
  }
}
