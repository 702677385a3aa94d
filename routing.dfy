/**
 * How the `messages.upsert` listener classifies each inbound message: the two command
 * prefixes, then the link check for any other text that does not start with the first
 * catalog link.
 */
module Routing {
  import opened Wrappers
  import opened Messages
  import opened Catalog

  const AntilinkPrefix := "!antilink"
  const LinkSharingPrefix := "!linksharing"

  datatype Route = ToAntilink | ToLinkSharing | ToLinkDetection | NoAction

  /** `msg.message.conversation || msg.message.extendedTextMessage?.text` */
  function UserMessage(c: Content): (r: Option<string>)
    ensures Truthy(r) <==> Truthy(c.conversation) || Truthy(c.extendedText)
    ensures Truthy(c.conversation) ==> r == c.conversation
    ensures !Truthy(c.conversation) ==> r == c.extendedText
  {
    if Truthy(c.conversation) then c.conversation else c.extendedText
  }

  /** The `if … else if …` chain of the listener; absent and empty text are falsy and skipped. */
  function Classify(text: Option<string>): (r: Route)
    ensures r != NoAction ==> Truthy(text)
    ensures r == ToAntilink <==> Truthy(text) && AntilinkPrefix <= text.value
    ensures r == ToLinkSharing <==> Truthy(text) && LinkSharingPrefix <= text.value
    ensures r == ToLinkDetection <==>
              && Truthy(text)
              && !(AntilinkPrefix <= text.value)
              && !(LinkSharingPrefix <= text.value)
              && !(LinksToShare[0] <= text.value)
  {
    if Truthy(text) then PrefixesExclusive(text.value); ClassifyText(text.value) else NoAction
  }

  function ClassifyText(t: string): Route
  {
    if AntilinkPrefix <= t then ToAntilink
    else if LinkSharingPrefix <= t then ToLinkSharing
    else if !(LinksToShare[0] <= t) then ToLinkDetection
    else NoAction
  }

  /** The two command prefixes differ at their second character. */
  lemma PrefixesExclusive(t: string)
    ensures !(AntilinkPrefix <= t && LinkSharingPrefix <= t)
  {
    assert AntilinkPrefix <= t ==> t[1] == 'a';
    assert LinkSharingPrefix <= t ==> t[1] == 'l';
  }

  /** Text that starts with the first catalog link is never checked for links. */
  lemma OwnLinkIsNeverChecked(t: string)
    requires LinksToShare[0] <= t
    ensures Classify(Some(t)) == NoAction
  {
    assert t[0] == 'h';
  }
}
