/** The command descriptors that the framework exposes to command definitions. */
module PublicCommandDataTypes {
  import opened Wrappers
  import opened Platform

  /**
   * The Kotlin type of a command parameter. The seven named types are those
   * the built-in parsers handle; `OtherType` stands for every other type
   * (a nullable `String?`, a `Long`, a domain class, ...).
   */
  datatype ArgType =
    | IntType
    | DoubleType
    | UserType
    | RoleType
    | TextChannelType
    | BooleanType
    | StringType
    | OtherType(typeName: string)

  datatype ParameterInfo = ParameterInfo(name: string, paramType: ArgType, summary: Option<string>)

  datatype CommandInfo = CommandInfo(
    name: string,
    parameters: seq<ParameterInfo>,
    summary: Option<string>,
    remarks: Option<string>,
    hasRemainder: bool)

  /** What a command definition instance is given before it runs (the platform handle is left out). */
  datatype CommandContext = CommandContext(
    guild: Option<Guild>,
    channel: MessageChannel,
    user: User,
    message: Message)
}
