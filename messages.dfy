/**
 * The parts of the chat client's messages that the bot reads and writes.  Transport,
 * authentication and the socket itself belong to the client library and are not modelled.
 */
module Messages {
  import opened Wrappers

  /** `msg.key`: the chat, the sender inside a group (absent in a direct chat) and the message id. */
  datatype MessageKey = MessageKey(remoteJid: string, participant: Option<string>, id: string)

  /** `msg.message`: only the two text-carrying fields the bot looks at. */
  datatype Content = Content(conversation: Option<string>, extendedText: Option<string>)

  /** One element of `messageUpdate.messages`; `message` is absent for protocol stubs. */
  datatype Inbound = Inbound(key: MessageKey, message: Option<Content>)

  /** The `delete` payload: which message to retract. */
  datatype DeleteKey = DeleteKey(remoteJid: string, fromMe: bool, id: string, participant: string)

  /** A `sendMessage` request: a text, or the deletion of an earlier message. */
  datatype Outbound = SendText(to: string, text: string) | SendDelete(to: string, target: DeleteKey)

  /** A string value is truthy in JavaScript exactly when it is present and non-empty. */
  predicate Truthy(s: Option<string>) {
    s.Some? && s.value != ""
  }

  /** JavaScript's `a || b` where `a` is an optional string. */
  function OrElse(a: Option<string>, b: string): (r: string)
    ensures Truthy(a) ==> r == a.value
    ensures !Truthy(a) ==> r == b
    ensures r != "" <==> Truthy(a) || b != ""
  {
    if Truthy(a) then a.value else b
  }
}
