/**
 * The bot's moderation state machine as pure functions on a state value: the command
 * handlers, the link check and the routing of each inbound message (the broadcast tick is in
 * `Broadcast`).
 * Every `sendMessage` request is an element of an output list instead of a call.
 */
module Moderation {
  import opened Wrappers
  import opened Messages
  import opened Catalog
  import opened OrderedSet
  import opened Routing
  import LinkGuard

  const AntilinkOn := "!antilink on"
  const AntilinkOff := "!antilink 0"
  const LinkSharingOn := "!linksharing on"
  const LinkSharingOff := "!linksharing 0"

  const ReplyOn := "correcto"
  const ReplyAntilinkOff := "desactivada"
  const ReplyLinkSharingOff := "desactivada."
  const NoticeAntilinkOn := "¡Antilink activado!"
  const NoticeAntilinkOff := "¡Antilink desactivado!"

  /**
   * The five module-level variables.  The two JavaScript sets are duplicate-free sequences in
   * insertion order; `currentLinkIndex` indexes `LinksToShare`.
   */
  datatype State = State(
    antiLinkActive: bool,
    linkSharingActive: bool,
    groupsToShareLinks: seq<string>,
    allGroups: seq<string>,
    currentLinkIndex: nat)

  const Initial := State(true, false, [], [], 0)

  /**
   * Both sets start empty and every change adds or deletes the same chat in both, so they stay
   * equal, in the same order; the rotation cursor stays inside the catalog.
   */
  ghost predicate Valid(st: State) {
    && NoDup(st.groupsToShareLinks)
    && st.allGroups == st.groupsToShareLinks
    && st.currentLinkIndex < |LinksToShare|
  }

  /** The new state and the messages sent, in the order they are requested. */
  datatype Effect = Effect(state: State, out: seq<Outbound>)

  /** `groups.forEach(group => sock.sendMessage(group, { text }))` */
  function Notices(groups: seq<string>, text: string): (r: seq<Outbound>)
    ensures |r| == |groups|
    ensures forall i :: 0 <= i < |groups| ==> r[i] == SendText(groups[i], text)
  {
    if groups == [] then []
    else Notices(groups[..|groups| - 1], text) + [SendText(groups[|groups| - 1], text)]
  }

  /** `handleAntilinkCommand`: only the two exact texts do anything. */
  function AntilinkCommand(st: State, chatId: string, text: string): (r: Effect)
    ensures r.state == st.(antiLinkActive := r.state.antiLinkActive)
    ensures text == AntilinkOn ==>
              r.state.antiLinkActive && r.out == [SendText(chatId, ReplyOn)] + Notices(st.allGroups, NoticeAntilinkOn)
    ensures text == AntilinkOff ==>
              !r.state.antiLinkActive && r.out == [SendText(chatId, ReplyAntilinkOff)] + Notices(st.allGroups, NoticeAntilinkOff)
    ensures text != AntilinkOn && text != AntilinkOff ==> r == Effect(st, [])
  {
    if text == AntilinkOn then
      Effect(st.(antiLinkActive := true), [SendText(chatId, ReplyOn)] + Notices(st.allGroups, NoticeAntilinkOn))
    else if text == AntilinkOff then
      Effect(st.(antiLinkActive := false), [SendText(chatId, ReplyAntilinkOff)] + Notices(st.allGroups, NoticeAntilinkOff))
    else
      Effect(st, [])
  }

  /**
   * `handleLinkSharingCommand`: the flag is global, the membership is per chat, and turning
   * sharing off also drops the chat from `allGroups`.
   */
  function LinkSharingCommand(st: State, chatId: string, text: string): (r: Effect)
    ensures r.state.antiLinkActive == st.antiLinkActive
    ensures r.state.currentLinkIndex == st.currentLinkIndex
    ensures Valid(st) ==> Valid(r.state)
    ensures forall g :: g != chatId ==> (g in r.state.groupsToShareLinks <==> g in st.groupsToShareLinks)
    ensures forall g :: g != chatId ==> (g in r.state.allGroups <==> g in st.allGroups)
    ensures text == LinkSharingOn ==>
              && r.state.linkSharingActive
              && chatId in r.state.groupsToShareLinks && chatId in r.state.allGroups
              && r.out == [SendText(chatId, ReplyOn)]
    ensures text == LinkSharingOff ==>
              && !r.state.linkSharingActive
              && chatId !in r.state.groupsToShareLinks && chatId !in r.state.allGroups
              && r.out == [SendText(chatId, ReplyLinkSharingOff)]
    ensures text != LinkSharingOn && text != LinkSharingOff ==> r == Effect(st, [])
  {
    if text == LinkSharingOn then
      Effect(st.(linkSharingActive := true,
                 groupsToShareLinks := Add(st.groupsToShareLinks, chatId),
                 allGroups := Add(st.allGroups, chatId)),
             [SendText(chatId, ReplyOn)])
    else if text == LinkSharingOff then
      DeleteKeepsNoDup(st.groupsToShareLinks, chatId);
      Effect(st.(linkSharingActive := false,
                 groupsToShareLinks := Delete(st.groupsToShareLinks, chatId),
                 allGroups := Delete(st.allGroups, chatId)),
             [SendText(chatId, ReplyLinkSharingOff)])
    else
      Effect(st, [])
  }

  /** `handleLinkDetection`: at most one delete request, for the offending message itself. */
  function LinkDetection(st: State, chatId: string, key: MessageKey, text: string, senderId: string): (r: seq<Outbound>)
    ensures r != [] <==> st.antiLinkActive && LinkGuard.HasForbiddenLink(text)
    ensures r != [] ==> r == [SendDelete(chatId, DeleteKey(chatId, false, key.id, OrElse(key.participant, senderId)))]
  {
    if st.antiLinkActive && LinkGuard.HasForbiddenLink(text) then
      [SendDelete(chatId, DeleteKey(chatId, false, key.id, OrElse(key.participant, senderId)))]
    else
      []
  }

  /** The text the listener reads from a message, absent when the message has no payload. */
  function MessageText(msg: Inbound): Option<string> {
    if msg.message.Some? then UserMessage(msg.message.value) else None
  }

  /** The body of the `for (const msg of messageUpdate.messages)` loop, for one message. */
  function HandleMessage(st: State, msg: Inbound): (r: Effect)
    ensures r.state.currentLinkIndex == st.currentLinkIndex
    ensures Valid(st) ==> Valid(r.state)
    ensures !Truthy(MessageText(msg)) ==> r == Effect(st, [])
  {
    if msg.message.None? then Effect(st, [])
    else
      var chatId := msg.key.remoteJid;
      var senderId := OrElse(msg.key.participant, msg.key.remoteJid);
      var text := UserMessage(msg.message.value);
      match Classify(text)
      case ToAntilink => AntilinkCommand(st, chatId, text.value)
      case ToLinkSharing => LinkSharingCommand(st, chatId, text.value)
      case ToLinkDetection => Effect(st, LinkDetection(st, chatId, msg.key, text.value, senderId))
      case NoAction => Effect(st, [])
  }

  /** One `messages.upsert` event: its messages handled in order. */
  function Run(st: State, msgs: seq<Inbound>): (r: Effect)
    ensures r.state.currentLinkIndex == st.currentLinkIndex
    ensures Valid(st) ==> Valid(r.state)
    decreases |msgs|
  {
    if msgs == [] then Effect(st, [])
    else
      var first := HandleMessage(st, msgs[0]);
      var rest := Run(first.state, msgs[1..]);
      Effect(rest.state, first.out + rest.out)
  }

  /** A command text and a link in it: the command is handled, the message is never deleted. */
  lemma CommandIsNeverDeleted(st: State, msg: Inbound)
    requires Truthy(MessageText(msg))
    requires AntilinkPrefix <= MessageText(msg).value || LinkSharingPrefix <= MessageText(msg).value
    ensures forall o :: o in HandleMessage(st, msg).out ==> o.SendText?
  {
    PrefixesExclusive(MessageText(msg).value);
  }

  /**
   * A message leads to a delete request exactly when antilink is on and its text is present,
   * non-empty, starts with neither command prefix nor the first catalog link, and holds a
   * forbidden link.
   */
  lemma DeletedExactlyWhen(st: State, msg: Inbound)
    ensures (exists o :: o in HandleMessage(st, msg).out && o.SendDelete?) <==>
              && st.antiLinkActive
              && Truthy(MessageText(msg))
              && !(AntilinkPrefix <= MessageText(msg).value)
              && !(LinkSharingPrefix <= MessageText(msg).value)
              && !(LinksToShare[0] <= MessageText(msg).value)
              && LinkGuard.HasForbiddenLink(MessageText(msg).value)
  {
    if Truthy(MessageText(msg)) {
      assert msg.message.Some?;
      var t := MessageText(msg).value;
      PrefixesExclusive(t);
      var r := HandleMessage(st, msg);
      if Classify(MessageText(msg)) == ToLinkDetection && st.antiLinkActive && LinkGuard.HasForbiddenLink(t) {
        assert r.out[0] in r.out && r.out[0].SendDelete?;
      }
    }
  }

  /** Text that starts with the first catalog link changes nothing. */
  lemma OwnLinkIsIgnored(st: State, msg: Inbound)
    requires Truthy(MessageText(msg)) && LinksToShare[0] <= MessageText(msg).value
    ensures HandleMessage(st, msg) == Effect(st, [])
  {
    OwnLinkIsNeverChecked(MessageText(msg).value);
  }

  /** The observable settings a command can change. */
  datatype Setting = AntilinkFlag | SharingFlag | Subscription(chatId: string)

  function Observe(st: State, w: Setting): bool {
    match w
    case AntilinkFlag => st.antiLinkActive
    case SharingFlag => st.linkSharingActive
    case Subscription(g) => g in st.groupsToShareLinks
  }

  /** What one message sets `w` to, if anything: only the exact command texts set anything. */
  function SettingOf(msg: Inbound, w: Setting): Option<bool> {
    var t := MessageText(msg);
    match w
    case AntilinkFlag =>
      if t == Some(AntilinkOn) then Some(true) else if t == Some(AntilinkOff) then Some(false) else None
    case SharingFlag =>
      if t == Some(LinkSharingOn) then Some(true) else if t == Some(LinkSharingOff) then Some(false) else None
    case Subscription(g) =>
      if msg.key.remoteJid != g then None
      else if t == Some(LinkSharingOn) then Some(true) else if t == Some(LinkSharingOff) then Some(false) else None
  }

  /** The value of `w` after `msgs`, starting from `current`: the last message that sets it wins. */
  function Latest(msgs: seq<Inbound>, w: Setting, current: bool): bool
    decreases |msgs|
  {
    if msgs == [] then current
    else
      var next := match SettingOf(msgs[0], w) case Some(b) => b case None => current;
      Latest(msgs[1..], w, next)
  }

  lemma HandleMessageSetting(st: State, msg: Inbound, w: Setting)
    ensures Observe(HandleMessage(st, msg).state, w) ==
              match SettingOf(msg, w) case Some(b) => b case None => Observe(st, w)
  {
    var t := MessageText(msg);
    if Truthy(t) {
      assert AntilinkPrefix <= AntilinkOn && AntilinkPrefix <= AntilinkOff;
      assert LinkSharingPrefix <= LinkSharingOn && LinkSharingPrefix <= LinkSharingOff;
      PrefixesExclusive(t.value);
    }
  }

  /**
   * After any sequence of messages, the antilink flag, the sharing flag and each chat's
   * subscription hold the value the last matching command gave them, or their old value if
   * no message set them.  Commands with any other suffix leave them alone.
   */
  lemma {:induction false} RunFollowsLatest(st: State, msgs: seq<Inbound>, w: Setting)
    ensures Observe(Run(st, msgs).state, w) == Latest(msgs, w, Observe(st, w))
    decreases |msgs|
  {
    if msgs != [] {
      HandleMessageSetting(st, msgs[0], w);
      RunFollowsLatest(HandleMessage(st, msgs[0]).state, msgs[1..], w);
    }
  }

  /** Turning sharing on and then off in a chat leaves the chat in neither set. */
  lemma SubscribeThenUnsubscribe(st: State, on: Inbound, off: Inbound)
    requires Valid(st)
    requires on.key.remoteJid == off.key.remoteJid
    requires MessageText(on) == Some(LinkSharingOn) && MessageText(off) == Some(LinkSharingOff)
    ensures on.key.remoteJid !in Run(st, [on, off]).state.groupsToShareLinks
    ensures on.key.remoteJid !in Run(st, [on, off]).state.allGroups
    ensures !Run(st, [on, off]).state.linkSharingActive
  {
    var g := on.key.remoteJid;
    RunFollowsLatest(st, [on, off], Subscription(g));
    RunFollowsLatest(st, [on, off], SharingFlag);
    assert [on, off][1..] == [off] && [off][1..] == [];
    assert SettingOf(off, Subscription(g)) == Some(false) && SettingOf(off, SharingFlag) == Some(false);
    assert Latest([off], Subscription(g), true) == false;
    assert Latest([off], SharingFlag, true) == false;
  }
}
