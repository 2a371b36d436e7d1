/** The base class every command definition extends. */
module CommandDefinitions {
  import opened Wrappers
  import opened PublicCommandDataTypes

  /** An instance of a command definition class; its context is attached just before a command runs. */
  class BaseCommandDefinition {
    var context: Option<CommandContext>

    constructor ()
      ensures context == None
    {
      context := None;
    }

    method SetContext(context: CommandContext)
      modifies this
      ensures this.context == Some(context)
    {
      this.context := Some(context);
    }
  }
}
