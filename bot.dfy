/**
 * The bot's module-level variables as the fields of one object, and the handlers, the
 * `messages.upsert` listener and the interval callback as methods that update them in place.
 * Each method is proved to produce the new state and the messages that the corresponding
 * function of `Moderation` or `Broadcast` gives for the old state.
 */
module Bot {
  import opened Messages
  import opened Catalog
  import opened OrderedSet
  import opened Routing
  import opened Moderation
  import opened Broadcast
  import LinkGuard

  class ModerationBot {
    var isAntiLinkActive: bool
    var isLinkSharingActive: bool
    var groupsToShareLinks: seq<string>
    var allGroups: seq<string>
    var currentLinkIndex: nat

    function Snapshot(): State
      reads this
    {
      State(isAntiLinkActive, isLinkSharingActive, groupsToShareLinks, allGroups, currentLinkIndex)
    }

    ghost predicate Valid()
      reads this
    {
      Moderation.Valid(Snapshot())
    }

    /** The values the variables are declared with. */
    constructor ()
      ensures Valid() && Snapshot() == Initial
    {
      isAntiLinkActive := true;
      isLinkSharingActive := false;
      groupsToShareLinks := [];
      allGroups := [];
      currentLinkIndex := 0;
    }

    /** `allGroups.forEach(group => sock.sendMessage(group, { text }))` */
    method NotifyAllGroups(text: string) returns (sends: seq<Outbound>)
      ensures sends == Notices(allGroups, text)
    {
      sends := [];
      for i := 0 to |allGroups|
        invariant sends == Notices(allGroups[..i], text)
      {
        assert allGroups[..i + 1][..i] == allGroups[..i];
        sends := sends + [SendText(allGroups[i], text)];
      }
      assert allGroups[..|allGroups|] == allGroups;
    }

    method HandleAntilinkCommand(chatId: string, userMessage: string) returns (out: seq<Outbound>)
      requires Valid()
      modifies this
      ensures Valid()
      ensures Effect(Snapshot(), out) == AntilinkCommand(old(Snapshot()), chatId, userMessage)
    {
      out := [];
      if userMessage == AntilinkOn {
        isAntiLinkActive := true;
        var notices := NotifyAllGroups(NoticeAntilinkOn);
        out := [SendText(chatId, ReplyOn)] + notices;
      } else if userMessage == AntilinkOff {
        isAntiLinkActive := false;
        var notices := NotifyAllGroups(NoticeAntilinkOff);
        out := [SendText(chatId, ReplyAntilinkOff)] + notices;
      }
    }

    method HandleLinkSharingCommand(chatId: string, userMessage: string) returns (out: seq<Outbound>)
      requires Valid()
      modifies this
      ensures Valid()
      ensures Effect(Snapshot(), out) == LinkSharingCommand(old(Snapshot()), chatId, userMessage)
    {
      out := [];
      if userMessage == LinkSharingOn {
        isLinkSharingActive := true;
        groupsToShareLinks := Add(groupsToShareLinks, chatId);
        allGroups := Add(allGroups, chatId);
        out := [SendText(chatId, ReplyOn)];
      } else if userMessage == LinkSharingOff {
        isLinkSharingActive := false;
        DeleteKeepsNoDup(groupsToShareLinks, chatId);
        groupsToShareLinks := Delete(groupsToShareLinks, chatId);
        allGroups := Delete(allGroups, chatId);
        out := [SendText(chatId, ReplyLinkSharingOff)];
      }
    }

    /** Reads the antilink flag only; the delete request is the whole effect. */
    method HandleLinkDetection(chatId: string, key: MessageKey, userMessage: string, senderId: string)
      returns (out: seq<Outbound>)
      ensures out == LinkDetection(Snapshot(), chatId, key, userMessage, senderId)
    {
      if !isAntiLinkActive {
        return [];
      }
      if LinkGuard.HasForbiddenLink(userMessage) {
        var participant := OrElse(key.participant, senderId);
        out := [SendDelete(chatId, DeleteKey(chatId, false, key.id, participant))];
      } else {
        out := [];
      }
    }

    method HandleMessage(msg: Inbound) returns (out: seq<Outbound>)
      requires Valid()
      modifies this
      ensures Valid()
      ensures Effect(Snapshot(), out) == Moderation.HandleMessage(old(Snapshot()), msg)
    {
      out := [];
      if msg.message.None? {
        return;
      }
      var chatId := msg.key.remoteJid;
      var senderId := OrElse(msg.key.participant, msg.key.remoteJid);
      var userMessage := UserMessage(msg.message.value);
      match Classify(userMessage)
      case ToAntilink =>
        out := HandleAntilinkCommand(chatId, userMessage.value);
      case ToLinkSharing =>
        out := HandleLinkSharingCommand(chatId, userMessage.value);
      case ToLinkDetection =>
        out := HandleLinkDetection(chatId, msg.key, userMessage.value, senderId);
      case NoAction =>
    }

    /** The `messages.upsert` listener: every message of the event, in order. */
    method OnMessagesUpsert(msgs: seq<Inbound>) returns (out: seq<Outbound>)
      requires Valid()
      modifies this
      ensures Valid()
      ensures Effect(Snapshot(), out) == Run(old(Snapshot()), msgs)
    {
      out := [];
      for i := 0 to |msgs|
        invariant Valid()
        invariant Run(Snapshot(), msgs[i..]).state == Run(old(Snapshot()), msgs).state
        invariant out + Run(Snapshot(), msgs[i..]).out == Run(old(Snapshot()), msgs).out
      {
        assert msgs[i..][1..] == msgs[i + 1..];
        var sent := HandleMessage(msgs[i]);
        out := out + sent;
      }
      assert msgs[|msgs|..] == [];
    }

    /** One pass of the loop body: offer the current link to `chatId`, advance only on delivery. */
    method ShareWithGroup(chatId: string, outcome: Outcome) returns (sent: seq<Outbound>)
      requires currentLinkIndex < |LinksToShare|
      modifies this
      ensures Snapshot() == old(Snapshot()).(currentLinkIndex := currentLinkIndex)
      ensures currentLinkIndex == NextCursor(old(currentLinkIndex), outcome)
      ensures sent == Visit(chatId, old(currentLinkIndex), outcome)
    {
      var linkToSend := LinksToShare[currentLinkIndex];
      sent := [];
      if outcome.Delivered? {
        sent := [Offer(chatId, outcome.preview, linkToSend)];
        currentLinkIndex := Advance(currentLinkIndex);
      }
    }

    /** The `setInterval` callback, given what each subscribed group's fetch and send came to. */
    method ShareTick(outcomes: seq<Outcome>) returns (out: seq<Outbound>)
      requires Valid() && |outcomes| == |groupsToShareLinks|
      modifies this
      ensures Valid()
      ensures Effect(Snapshot(), out) == Tick(old(Snapshot()), outcomes)
    {
      out := [];
      if isLinkSharingActive && |groupsToShareLinks| > 0 {
        var groups := groupsToShareLinks;
        ghost var whole := ShareLoop(groups, currentLinkIndex, outcomes);
        for i := 0 to |groups|
          invariant Snapshot() == old(Snapshot()).(currentLinkIndex := currentLinkIndex)
          invariant currentLinkIndex < |LinksToShare|
          invariant ShareFrom(groups, outcomes, i, currentLinkIndex, out) == whole
        {
          var sent := ShareWithGroup(groups[i], outcomes[i]);
          out := out + sent;
        }
      }
    }
  }
}
