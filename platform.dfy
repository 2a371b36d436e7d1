/**
 * The parts of the chat platform (JDA) that the command engine touches.
 * Entities are opaque handles; the id lookups are supplied from outside,
 * since the platform client itself is not part of this model.
 */
module Platform {
  import opened Wrappers

  datatype User = User(handle: nat)
  datatype Role = Role(handle: nat)
  datatype TextChannel = TextChannel(handle: nat)
  datatype Guild = Guild(handle: nat)
  datatype Message = Message(handle: nat)

  /** The platform client's lookups by numeric (64-bit) id; `None` when nothing has that id. */
  datatype Jda = Jda(
    getUserById: int -> Option<User>,
    getRoleById: int -> Option<Role>,
    getTextChannelById: int -> Option<TextChannel>)

  /**
   * The channel a message came from. The engine only ever sends text to it;
   * `sent` records, in order, every text handed to `sendMessage(...).queue()`.
   */
  class MessageChannel {
    var sent: seq<string>

    constructor ()
      ensures sent == []
    {
      sent := [];
    }

    method SendMessage(text: string)
      modifies this
      ensures sent == old(sent) + [text]
    {
      sent := sent + [text];
    }
  }
}
