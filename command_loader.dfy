/**
 * Building the command tables at startup. Reflection is replaced by
 * descriptors: each command definition class, its constructors, its
 * annotations and its member functions are given as values.
 */
module CommandLoader {
  import opened Wrappers
  import opened PublicCommandDataTypes
  import opened InternalCommandDataTypes
  import opened ArgumentParsers
  import opened Preconditions
  import opened CommandOrdering

  datatype ConstructorDescriptor = ConstructorDescriptor(isPublic: bool, parameterCount: nat, injectAnnotated: bool)

  /** An evaluator class named in a `@Precondition` annotation. */
  datatype EvaluatorClass = EvaluatorClass(className: string, isPublic: bool, constructors: seq<ConstructorDescriptor>)

  /** A value parameter of a member function (the receiver is not listed). */
  datatype ParameterDescriptor = ParameterDescriptor(
    name: Option<string>,
    paramType: ArgType,
    summary: Option<string>,
    remainder: bool)

  /**
   * A member function: `command` is its `@Command` name if annotated, and
   * `preconditions` the evaluator classes of its `@Precondition`, if any.
   */
  datatype FunctionDescriptor = FunctionDescriptor(
    ref: FunctionRef,
    command: Option<string>,
    parameters: seq<ParameterDescriptor>,
    summary: Option<string>,
    remarks: Option<string>,
    preconditions: seq<EvaluatorClass>)

  /** A subtype of the command definition base class, with its `@Prefix` and `@Precondition`. */
  datatype DefinitionDescriptor = DefinitionDescriptor(
    clazz: ClassRef,
    isPublic: bool,
    constructors: seq<ConstructorDescriptor>,
    prefix: Option<string>,
    preconditions: seq<EvaluatorClass>,
    memberFunctions: seq<FunctionDescriptor>)

  /** A command's full name paired with the command. */
  type CommandPair = (string, InternalCommandInfo)

  // ---------------------------------------------------------------------------
  // Selecting definitions and evaluators

  /** A public class with a public constructor that is nullary or marked for injection. */
  predicate IsLoadable(d: DefinitionDescriptor) {
    d.isPublic &&
    exists j :: 0 <= j < |d.constructors| &&
      d.constructors[j].isPublic && (d.constructors[j].parameterCount == 0 || d.constructors[j].injectAnnotated)
  }

  /** A public evaluator class with a public nullary constructor. */
  predicate IsInstantiable(c: EvaluatorClass) {
    c.isPublic &&
    exists j :: 0 <= j < |c.constructors| && c.constructors[j].isPublic && c.constructors[j].parameterCount == 0
  }

  /** One instance of every instantiable class in `classes`. */
  function BuildPreconditionEvaluators(classes: seq<EvaluatorClass>): (s: set<PreconditionEvaluator>)
    ensures forall e :: e in s <==>
      exists i :: 0 <= i < |classes| && IsInstantiable(classes[i]) && e == PreconditionEvaluator(classes[i].className)
  {
    if classes == [] then {}
    else
      var rest := BuildPreconditionEvaluators(classes[1..]);
      assert forall i :: 1 <= i < |classes| ==> classes[1..][i - 1] == classes[i];
      (if IsInstantiable(classes[0]) then {PreconditionEvaluator(classes[0].className)} else {}) + rest
  }

  /** The function's own instantiable evaluators together with its definition's. */
  function CheckFunctionForPreconditions(f: FunctionDescriptor, definitionPreconditions: set<PreconditionEvaluator>): (s: set<PreconditionEvaluator>)
    ensures definitionPreconditions <= s
    ensures forall e :: e in s <==> (e in definitionPreconditions ||
      exists i :: 0 <= i < |f.preconditions| && IsInstantiable(f.preconditions[i]) &&
        e == PreconditionEvaluator(f.preconditions[i].className))
  {
    BuildPreconditionEvaluators(f.preconditions) + definitionPreconditions
  }

  // ---------------------------------------------------------------------------
  // Building one command

  function ParameterInfoOf(p: ParameterDescriptor): ParameterInfo {
    ParameterInfo(if p.name.Some? then p.name.value else "unknown", p.paramType, p.summary)
  }

  function BuildParameterInfo(ps: seq<ParameterDescriptor>): (r: seq<ParameterInfo>)
    ensures |r| == |ps|
    ensures forall i :: 0 <= i < |ps| ==>
      r[i].paramType == ps[i].paramType && r[i].summary == ps[i].summary &&
      r[i].name == (if ps[i].name.Some? then ps[i].name.value else "unknown")
  {
    seq(|ps|, i requires 0 <= i < |ps| => ParameterInfoOf(ps[i]))
  }

  /**
   * The last parameter is a `String` marked `@Remainder`. A function without
   * value parameters has only its receiver last, which is never such a parameter.
   */
  function CheckFunctionHasRemainder(ps: seq<ParameterDescriptor>): bool {
    if ps == [] then false else ps[|ps| - 1].paramType == StringType && ps[|ps| - 1].remainder
  }

  function QualifiedName(prefix: Option<string>, name: string): string {
    if prefix.Some? then prefix.value + " " + name else name
  }

  predicate AllParsable(ps: seq<ParameterDescriptor>, parserTypes: seq<ArgType>) {
    forall i :: 0 <= i < |ps| ==> ps[i].paramType in parserTypes
  }

  /** A command from `f` when it is annotated and every parameter type has a parser. */
  function BuildCommandInfo(d: DefinitionDescriptor, f: FunctionDescriptor, parserTypes: seq<ArgType>): (r: Option<CommandPair>)
    ensures r.Some? ==> WellFormedPair(r.value, parserTypes) && r.value.1.clazz == d.clazz
  {
    if f.command.None? || !AllParsable(f.parameters, parserTypes) then None
    else
      var name := QualifiedName(d.prefix, f.command.value);
      var info := CommandInfo(name, BuildParameterInfo(f.parameters), f.summary, f.remarks,
                              CheckFunctionHasRemainder(f.parameters));
      Some((name, InternalCommandInfo(info, d.clazz, f.ref)))
  }

  /**
   * The shape every loaded command has: it is listed under its own name,
   * every parameter type has a parser, and a remainder command ends in a
   * `String` parameter.
   */
  predicate WellFormedPair(p: CommandPair, parserTypes: seq<ArgType>) {
    var ps := p.1.commandInfo.parameters;
    && p.0 == p.1.commandInfo.name
    && (forall j :: 0 <= j < |ps| ==> ps[j].paramType in parserTypes)
    && (p.1.commandInfo.hasRemainder ==> |ps| > 0 && ps[|ps| - 1].paramType == StringType)
  }

  predicate WellFormedPairs(pairs: seq<CommandPair>, parserTypes: seq<ArgType>) {
    forall i :: 0 <= i < |pairs| ==> WellFormedPair(pairs[i], parserTypes)
  }

  function PairsOf(d: DefinitionDescriptor, fs: seq<FunctionDescriptor>, parserTypes: seq<ArgType>): (r: seq<CommandPair>)
    ensures WellFormedPairs(r, parserTypes)
    ensures forall p :: p in r ==> p.1.clazz == d.clazz
    ensures forall p :: p in r <==> exists i :: 0 <= i < |fs| && BuildCommandInfo(d, fs[i], parserTypes) == Some(p)
  {
    if fs == [] then []
    else
      var head := BuildCommandInfo(d, fs[0], parserTypes);
      var rest := PairsOf(d, fs[1..], parserTypes);
      var r := (if head.Some? then [head.value] else []) + rest;
      assert forall i :: 1 <= i < |fs| ==> fs[1..][i - 1] == fs[i];
      assert forall p :: p in r <==> head == Some(p) || p in rest;
      r
  }

  /** `buildCommandInfoPairs`: the commands of one definition, in member function order. */
  function BuildCommandInfoPairs(d: DefinitionDescriptor, parserTypes: seq<ArgType>): (r: seq<CommandPair>)
    ensures WellFormedPairs(r, parserTypes)
    ensures forall p :: p in r ==> p.1.clazz == d.clazz
    ensures forall p :: p in r <==>
      exists j :: 0 <= j < |d.memberFunctions| && BuildCommandInfo(d, d.memberFunctions[j], parserTypes) == Some(p)
  {
    PairsOf(d, d.memberFunctions, parserTypes)
  }

  /** The commands of every loadable definition, in definition order. */
  function CommandInfoPairs(defs: seq<DefinitionDescriptor>, parserTypes: seq<ArgType>): (r: seq<CommandPair>)
    ensures WellFormedPairs(r, parserTypes)
    ensures forall p :: p in r <==> exists i :: 0 <= i < |defs| && IsLoadable(defs[i]) && p in BuildCommandInfoPairs(defs[i], parserTypes)
  {
    if defs == [] then []
    else
      var rest := CommandInfoPairs(defs[1..], parserTypes);
      assert forall i :: 1 <= i < |defs| ==> defs[1..][i - 1] == defs[i];
      (if IsLoadable(defs[0]) then BuildCommandInfoPairs(defs[0], parserTypes) else []) + rest
  }

  // ---------------------------------------------------------------------------
  // Grouping into tables

  /** The pairs whose remainder flag is `flag`, in order. */
  function Kept(pairs: seq<CommandPair>, flag: bool): (r: seq<CommandPair>)
    ensures forall p :: p in r <==> p in pairs && p.1.commandInfo.hasRemainder == flag
  {
    if pairs == [] then []
    else
      assert forall p :: p in pairs <==> p == pairs[0] || p in pairs[1..];
      (if pairs[0].1.commandInfo.hasRemainder == flag then [pairs[0]] else []) + Kept(pairs[1..], flag)
  }

  function Names(pairs: seq<CommandPair>): set<string> {
    set p | p in pairs :: p.0
  }

  function Arities(pairs: seq<CommandPair>, name: string): set<int> {
    set p | p in pairs && p.0 == name :: |p.1.commandInfo.parameters|
  }

  /** The commands listed under `name` with `k` parameters, in order. */
  function Bucket(pairs: seq<CommandPair>, name: string, k: int): (r: seq<InternalCommandInfo>)
    ensures forall x :: x in r <==> (name, x) in pairs && |x.commandInfo.parameters| == k
  {
    if pairs == [] then []
    else
      assert forall p :: p in pairs <==> p == pairs[0] || p in pairs[1..];
      var p := pairs[0];
      (if p.0 == name && |p.1.commandInfo.parameters| == k then [p.1] else []) + Bucket(pairs[1..], name, k)
  }

  /**
   * `getCommandMap`: group by name, then by parameter count, then
   * stable-sort each group. The table has an entry for exactly the names of
   * the pairs with the requested remainder flag.
   */
  function GetCommandMap(pairs: seq<CommandPair>, parserTypes: seq<ArgType>, filterForRemainders: bool): (m: CommandMap)
    ensures forall name :: name in m <==>
      exists p :: p in pairs && p.0 == name && p.1.commandInfo.hasRemainder == filterForRemainders
  {
    var kept := Kept(pairs, filterForRemainders);
    map name | name in Names(kept) :: Grouping(kept, parserTypes, name)
  }

  /** The entry of `name`: its commands grouped by parameter count, each group sorted. */
  function Grouping(pairs: seq<CommandPair>, parserTypes: seq<ArgType>, name: string): map<int, seq<InternalCommandInfo>> {
    map k | k in Arities(pairs, name) :: SortedWith(parserTypes, Bucket(pairs, name, k))
  }

  function ParserTypes(parsers: seq<ArgumentParser>): (types: seq<ArgType>)
    ensures |types| == |parsers| && forall i :: 0 <= i < |parsers| ==> types[i] == parsers[i].Type()
  {
    seq(|parsers|, i requires 0 <= i < |parsers| => parsers[i].Type())
  }

  /**
   * `map { it.type to it }.toMap()`: one parser per type, a later one
   * replacing an earlier. The keys are exactly the registered types, and each
   * key is served by a parser of that type.
   */
  function ParserMap(parsers: seq<ArgumentParser>): (r: map<ArgType, ArgumentParser>)
    ensures forall t :: t in r <==> t in ParserTypes(parsers)
    ensures forall t :: t in r ==> r[t].Type() == t
  {
    if parsers == [] then map[]
    else
      var n := |parsers| - 1;
      assert ParserTypes(parsers) == ParserTypes(parsers[..n]) + [parsers[n].Type()];
      ParserMap(parsers[..n])[parsers[n].Type() := parsers[n]]
  }

  /** A type registered more than once is served by its last parser. */
  lemma {:induction false} ParserMapLastWins(parsers: seq<ArgumentParser>, i: nat)
    requires i < |parsers|
    requires forall j :: i < j < |parsers| ==> parsers[j].Type() != parsers[i].Type()
    ensures parsers[i].Type() in ParserMap(parsers) && ParserMap(parsers)[parsers[i].Type()] == parsers[i]
  {
    var n := |parsers| - 1;
    if i < n {
      assert parsers[..n][i] == parsers[i];
      ParserMapLastWins(parsers[..n], i);
    }
  }

  /**
   * `loadCommandMapping` over the given definitions and the registered
   * parsers. Both tables are keyed by parameter count, which is what the
   * handler relies on, and the parser map covers exactly the registered types.
   */
  function LoadCommandMapping(defs: seq<DefinitionDescriptor>, argumentParsers: seq<ArgumentParser>): (cm: CommandMapping)
    ensures KeyedByArity(cm.commandMap) && KeyedByArity(cm.remainderCommandMap)
    ensures forall t :: t in cm.argumentParsers <==> t in ParserTypes(argumentParsers)
  {
    var parserTypes := ParserTypes(argumentParsers);
    var pairs := CommandInfoPairs(defs, parserTypes);
    CommandMapKeyedByArity(pairs, parserTypes, false);
    CommandMapKeyedByArity(pairs, parserTypes, true);
    CommandMapping(
      GetCommandMap(pairs, parserTypes, false),
      GetCommandMap(pairs, parserTypes, true),
      ParserMap(argumentParsers))
  }

  // ---------------------------------------------------------------------------
  // Properties of a table

  /** A listed command sits under its own name and parameter count, and came from a pair with the table's flag. */
  lemma CommandMapEntry(pairs: seq<CommandPair>, parserTypes: seq<ArgType>, flag: bool, name: string, k: int, x: InternalCommandInfo)
    requires WellFormedPairs(pairs, parserTypes)
    requires var m := GetCommandMap(pairs, parserTypes, flag); name in m && k in m[name] && x in m[name][k]
    ensures (name, x) in pairs && x.commandInfo.name == name
    ensures |x.commandInfo.parameters| == k && x.commandInfo.hasRemainder == flag
  {
    var kept := Kept(pairs, flag);
    var b := Bucket(kept, name, k);
    assert x in multiset(SortedWith(parserTypes, b));
    assert x in b;
    assert (name, x) in kept;
  }

  /** Every group in a table is non-empty and keyed by the parameter count of its members. */
  lemma CommandMapKeyedByArity(pairs: seq<CommandPair>, parserTypes: seq<ArgType>, flag: bool)
    requires WellFormedPairs(pairs, parserTypes)
    ensures KeyedByArity(GetCommandMap(pairs, parserTypes, flag))
    ensures var m := GetCommandMap(pairs, parserTypes, flag); forall name, k :: name in m && k in m[name] ==> |m[name][k]| > 0
  {
    var m: CommandMap := GetCommandMap(pairs, parserTypes, flag);
    var kept := Kept(pairs, flag);
    forall name: string, k: int, i: int | name in m && k in m[name] && 0 <= i < |m[name][k]|
      ensures |m[name][k][i].commandInfo.parameters| == k
    {
      CommandMapEntry(pairs, parserTypes, flag, name, k, m[name][k][i]);
    }
    forall name: string, k: int | name in m && k in m[name]
      ensures |m[name][k]| > 0
    {
      var p :| p in kept && p.0 == name && |p.1.commandInfo.parameters| == k;
      var b := Bucket(kept, name, k);
      assert p.1 in b;
      assert p.1 in multiset(m[name][k]);
    }
  }

  /** Every pair with the table's flag is listed under its name and parameter count. */
  lemma CommandMapComplete(pairs: seq<CommandPair>, parserTypes: seq<ArgType>, flag: bool, i: nat)
    requires i < |pairs| && pairs[i].1.commandInfo.hasRemainder == flag
    ensures var m := GetCommandMap(pairs, parserTypes, flag);
            var name, k := pairs[i].0, |pairs[i].1.commandInfo.parameters|;
            name in m && k in m[name] && pairs[i].1 in m[name][k]
  {
    var kept := Kept(pairs, flag);
    var p := pairs[i];
    assert p in kept;
    var name, k := p.0, |p.1.commandInfo.parameters|;
    assert name in Names(kept);
    assert k in Arities(kept, name);
    var b := Bucket(kept, name, k);
    assert p.1 in b;
    assert p.1 in multiset(SortedWith(parserTypes, b));
  }

  /** A group holds exactly the matching pairs' commands, duplicates included. */
  lemma CommandMapGroupContents(pairs: seq<CommandPair>, parserTypes: seq<ArgType>, flag: bool, name: string, k: int)
    requires var m := GetCommandMap(pairs, parserTypes, flag); name in m && k in m[name]
    ensures GetCommandMap(pairs, parserTypes, flag)[name][k] == SortedWith(parserTypes, Bucket(Kept(pairs, flag), name, k))
    ensures multiset(GetCommandMap(pairs, parserTypes, flag)[name][k]) == multiset(Bucket(Kept(pairs, flag), name, k))
  {
  }

  /** Each group is ordered by the parameter-type priority of the registered parsers. */
  lemma CommandMapSorted(pairs: seq<CommandPair>, parserTypes: seq<ArgType>, flag: bool, name: string, k: int)
    requires var m := GetCommandMap(pairs, parserTypes, flag); name in m && k in m[name]
    ensures SortedBy(parserTypes, GetCommandMap(pairs, parserTypes, flag)[name][k])
  {
    var kept := Kept(pairs, flag);
    var p :| p in kept && p.0 == name && |p.1.commandInfo.parameters| == k;
    SortedWithSorted(parserTypes, Bucket(kept, name, k), |p.1.commandInfo.parameters|);
  }

  /** Commands whose parameter types have the same priority keep the order in which they were found. */
  lemma CommandMapStable(pairs: seq<CommandPair>, parserTypes: seq<ArgType>, flag: bool, name: string, k: int, key: seq<int>)
    requires var m := GetCommandMap(pairs, parserTypes, flag); name in m && k in m[name]
    ensures WithKey(parserTypes, GetCommandMap(pairs, parserTypes, flag)[name][k], key) ==
            WithKey(parserTypes, Bucket(Kept(pairs, flag), name, k), key)
  {
    SortedWithStable(parserTypes, Bucket(Kept(pairs, flag), name, k), key);
  }

  // ---------------------------------------------------------------------------
  // Properties of the loaded mapping

  /**
   * Every loaded command lands in exactly one table: the remainder table
   * when it ends in a `@Remainder String`, the other table otherwise.
   */
  lemma LoadedCommandPartition(defs: seq<DefinitionDescriptor>, argumentParsers: seq<ArgumentParser>, p: CommandPair)
    requires p in CommandInfoPairs(defs, ParserTypes(argumentParsers))
    ensures var cm := LoadCommandMapping(defs, argumentParsers);
            var name, k := p.0, |p.1.commandInfo.parameters|;
            && (!p.1.commandInfo.hasRemainder <==> name in cm.commandMap && k in cm.commandMap[name] && p.1 in cm.commandMap[name][k])
            && (p.1.commandInfo.hasRemainder <==> name in cm.remainderCommandMap && k in cm.remainderCommandMap[name] && p.1 in cm.remainderCommandMap[name][k])
  {
    var parserTypes := ParserTypes(argumentParsers);
    var pairs := CommandInfoPairs(defs, parserTypes);
    var i :| 0 <= i < |pairs| && pairs[i] == p;
    var name, k := p.0, |p.1.commandInfo.parameters|;
    var flag := p.1.commandInfo.hasRemainder;
    CommandMapComplete(pairs, parserTypes, flag, i);
    var other := GetCommandMap(pairs, parserTypes, !flag);
    if name in other && k in other[name] && p.1 in other[name][k] {
      CommandMapEntry(pairs, parserTypes, !flag, name, k, p.1);
    }
  }

  /**
   * Every command in a table has a registered type for each parameter, and
   * every command in the remainder table ends in a `String` parameter.
   */
  lemma CommandMapParsable(pairs: seq<CommandPair>, parserTypes: seq<ArgType>, flag: bool, name: string, k: int, x: InternalCommandInfo)
    requires WellFormedPairs(pairs, parserTypes)
    requires var m := GetCommandMap(pairs, parserTypes, flag); name in m && k in m[name] && x in m[name][k]
    ensures forall j :: 0 <= j < |x.commandInfo.parameters| ==> x.commandInfo.parameters[j].paramType in parserTypes
    ensures flag ==> (|x.commandInfo.parameters| > 0 &&
              x.commandInfo.parameters[|x.commandInfo.parameters| - 1].paramType == StringType)
  {
    CommandMapEntry(pairs, parserTypes, flag, name, k, x);
    var i :| 0 <= i < |pairs| && pairs[i] == (name, x);
    assert WellFormedPair(pairs[i], parserTypes);
  }

  /** Every parameter type of a command in a loaded table has a parser in the loaded parser map. */
  lemma LoadedCommandsParsable(defs: seq<DefinitionDescriptor>, argumentParsers: seq<ArgumentParser>, flag: bool, name: string, k: int, x: InternalCommandInfo)
    requires var cm := LoadCommandMapping(defs, argumentParsers);
             var m := if flag then cm.remainderCommandMap else cm.commandMap;
             name in m && k in m[name] && x in m[name][k]
    ensures forall j :: 0 <= j < |x.commandInfo.parameters| ==>
              x.commandInfo.parameters[j].paramType in LoadCommandMapping(defs, argumentParsers).argumentParsers
  {
    var parserTypes := ParserTypes(argumentParsers);
    var pairs := CommandInfoPairs(defs, parserTypes);
    CommandMapParsable(pairs, parserTypes, flag, name, k, x);
  }

  /** The loaded commands are exactly the annotated, fully parsable member functions of the loadable definitions. */
  lemma LoadedCommandsSource(defs: seq<DefinitionDescriptor>, parserTypes: seq<ArgType>, p: CommandPair)
    ensures p in CommandInfoPairs(defs, parserTypes) <==>
      exists i, j :: 0 <= i < |defs| && IsLoadable(defs[i]) && 0 <= j < |defs[i].memberFunctions| &&
        BuildCommandInfo(defs[i], defs[i].memberFunctions[j], parserTypes) == Some(p)
  {
    if p in CommandInfoPairs(defs, parserTypes) {
      var i :| 0 <= i < |defs| && IsLoadable(defs[i]) && p in BuildCommandInfoPairs(defs[i], parserTypes);
      var j :| 0 <= j < |defs[i].memberFunctions| && BuildCommandInfo(defs[i], defs[i].memberFunctions[j], parserTypes) == Some(p);
    }
    if exists i, j :: 0 <= i < |defs| && IsLoadable(defs[i]) && 0 <= j < |defs[i].memberFunctions| &&
        BuildCommandInfo(defs[i], defs[i].memberFunctions[j], parserTypes) == Some(p) {
      var i, j :| 0 <= i < |defs| && IsLoadable(defs[i]) && 0 <= j < |defs[i].memberFunctions| &&
        BuildCommandInfo(defs[i], defs[i].memberFunctions[j], parserTypes) == Some(p);
      assert p in BuildCommandInfoPairs(defs[i], parserTypes);
    }
  }

  /**
   * Where a member function of a loadable definition ends up: it is loaded
   * exactly when it is annotated and each of its parameter types has a parser
   * in the loaded parser map; it is then listed under its qualified name and
   * its parameter count, in the remainder table exactly when its last
   * parameter is a `String` marked `@Remainder`, and in the exact table
   * exactly when it is not.
   */
  lemma LoadedFunctionPlacement(defs: seq<DefinitionDescriptor>, argumentParsers: seq<ArgumentParser>, i: nat, j: nat)
    requires i < |defs| && IsLoadable(defs[i]) && j < |defs[i].memberFunctions|
    ensures var d, f := defs[i], defs[i].memberFunctions[j];
      var cm := LoadCommandMapping(defs, argumentParsers);
      var r := BuildCommandInfo(d, f, ParserTypes(argumentParsers));
      && (r.Some? <==>
            f.command.Some? && forall k :: 0 <= k < |f.parameters| ==> f.parameters[k].paramType in cm.argumentParsers)
      && (r.Some? ==>
            var name, n, info := QualifiedName(d.prefix, f.command.value), |f.parameters|, r.value.1;
            var endsInRemainder := n > 0 && f.parameters[n - 1].paramType == StringType && f.parameters[n - 1].remainder;
            && r.value.0 == name && info.clazz == d.clazz && info.func == f.ref
            && ((name in cm.remainderCommandMap && n in cm.remainderCommandMap[name]
                 && info in cm.remainderCommandMap[name][n]) <==> endsInRemainder)
            && ((name in cm.commandMap && n in cm.commandMap[name]
                 && info in cm.commandMap[name][n]) <==> !endsInRemainder))
  {
    var parserTypes := ParserTypes(argumentParsers);
    var d, f := defs[i], defs[i].memberFunctions[j];
    var r := BuildCommandInfo(d, f, parserTypes);
    if r.Some? {
      var p := r.value;
      LoadedCommandsSource(defs, parserTypes, p);
      LoadedCommandPartition(defs, argumentParsers, p);
      assert |p.1.commandInfo.parameters| == |f.parameters|;
    }
  }
}
