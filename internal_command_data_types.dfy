/** The engine's own view of a command and the lookup tables built at startup. */
module InternalCommandDataTypes {
  import opened PublicCommandDataTypes
  import opened ArgumentParsers

  /** A command definition class: `simpleName` is what failure replies print. */
  datatype ClassRef = ClassRef(qualifiedName: string, simpleName: string)

  /** A member function of a command definition class, by identity. */
  datatype FunctionRef = FunctionRef(name: string, id: nat)

  datatype InternalCommandInfo = InternalCommandInfo(commandInfo: CommandInfo, clazz: ClassRef, func: FunctionRef)

  /** Command name, then parameter count, then the candidates in priority order. */
  type CommandMap = map<string, map<int, seq<InternalCommandInfo>>>

  datatype CommandMapping = CommandMapping(
    commandMap: CommandMap,
    remainderCommandMap: CommandMap,
    argumentParsers: map<ArgType, ArgumentParser>)

  /** Every candidate listed under parameter count `k` declares exactly `k` parameters. */
  predicate KeyedByArity(m: CommandMap) {
    forall name, k, i :: name in m && k in m[name] && 0 <= i < |m[name][k]| ==>
      |m[name][k][i].commandInfo.parameters| == k
  }
}
