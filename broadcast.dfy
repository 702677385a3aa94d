/**
 * One firing of the `setInterval` callback in `startLinkSharing`.  The preview fetch, its
 * five-second race and the send are abstracted into one outcome per subscribed group, given
 * in the order the groups are visited.
 */
module Broadcast {
  import opened Wrappers
  import opened Messages
  import opened Catalog
  import opened Moderation
  import opened Routing
  import opened Text
  import LinkGuard
  import Preview

  /**
   * What happened for one group: the preview helper resolved first and the message was sent
   * (`preview` is what it resolved with, `Preview.PreviewOf` of the fetched page); the fetch
   * threw (the helper then returns `null` and reading `preview.title` throws); the five-second
   * timeout won the race; or the send itself failed.
   */
  datatype Outcome = Delivered(preview: Preview.LinkPreview) | FetchFailed | TimedOut | SendFailed

  /** The message template: `${title}\n\n${description}\n${url}`. */
  function PreviewText(title: string, description: string, url: string): string {
    title + "\n\n" + description + "\n" + url
  }

  function Advance(cursor: nat): (r: nat)
    requires cursor < |LinksToShare|
    ensures r < |LinksToShare|
  {
    (cursor + 1) % |LinksToShare|
  }

  lemma AdvanceThenAdd(cursor: nat, k: nat)
    requires cursor < |LinksToShare|
    ensures (Advance(cursor) + k) % |LinksToShare| == (cursor + 1 + k) % |LinksToShare|
  {
    assert |LinksToShare| == 2;
  }

  /** The cursor after `k` advances. */
  function Rotate(cursor: nat, k: nat): (r: nat)
    requires cursor < |LinksToShare|
    ensures r < |LinksToShare|
    decreases k
  {
    if k == 0 then cursor else Rotate(Advance(cursor), k - 1)
  }

  /** `k` advances move the cursor `k` places on, wrapping around the catalog. */
  lemma {:induction false} RotateIsModulo(cursor: nat, k: nat)
    requires cursor < |LinksToShare|
    ensures Rotate(cursor, k) == (cursor + k) % |LinksToShare|
    decreases k
  {
    if k > 0 {
      RotateIsModulo(Advance(cursor), k - 1);
      AdvanceThenAdd(cursor, k - 1);
    }
  }

  /** How many of the outcomes are successful deliveries. */
  function Successes(outcomes: seq<Outcome>): (r: nat)
    ensures r <= |outcomes|
  {
    if outcomes == [] then 0
    else (if outcomes[0].Delivered? then 1 else 0) + Successes(outcomes[1..])
  }

  /** The message `group` is sent for the `preview` of the page at `url`. */
  function Offer(group: string, preview: Preview.LinkPreview, url: string): Outbound {
    SendText(group, PreviewText(preview.title, preview.description, url))
  }

  /**
   * The message is the title, a blank line, the description, a line break and the link: the
   * title is exactly its first line, since it holds no line terminator, and the link ends it.
   */
  lemma OfferLayout(group: string, html: string, url: string)
    ensures var r := Offer(group, Preview.PreviewOf(html), url);
            var title := Preview.Title(html);
            && r.SendText? && r.to == group
            && |r.text| == |title| + |Preview.Description(html)| + |url| + 3
            && r.text[..|title|] == title && r.text[|title|..|title| + 2] == "\n\n"
            && NoLineTerminator(r.text[..|title|])
            && r.text[|title| + 2..|r.text| - |url|] == Preview.Description(html) + "\n"
            && r.text[|r.text| - |url|..] == url
  {
    var p := Preview.PreviewOf(html);
    TextLayout(p.title, p.description, url);
  }

  lemma TextLayout(title: string, description: string, url: string)
    ensures var text := PreviewText(title, description, url);
            && |text| == |title| + |description| + |url| + 3
            && text[..|title|] == title && text[|title|..|title| + 2] == "\n\n"
            && text[|title| + 2..|text| - |url|] == description + "\n"
            && text[|text| - |url|..] == url
  {
    var text := PreviewText(title, description, url);
    assert text == title + "\n\n" + (description + "\n") + url;
    assert text[..|title|] == title;
    assert text[|title|..|title| + 2] == "\n\n";
  }

  /** The message a group receives for an outcome, when the link offered is `LinksToShare[cursor]`. */
  function Visit(group: string, cursor: nat, outcome: Outcome): (r: seq<Outbound>)
    requires cursor < |LinksToShare|
    ensures |r| == if outcome.Delivered? then 1 else 0
  {
    match outcome
    case Delivered(preview) => [Offer(group, preview, LinksToShare[cursor])]
    case _ => []
  }

  /** `currentLinkIndex` after one group: the advance is skipped when the `try` block threw. */
  function NextCursor(cursor: nat, outcome: Outcome): (r: nat)
    requires cursor < |LinksToShare|
    ensures r < |LinksToShare|
  {
    if outcome.Delivered? then Advance(cursor) else cursor
  }

  /** The messages sent in one pass of the loop and the cursor it leaves. */
  datatype Round = Round(sends: seq<Outbound>, cursor: nat)

  /**
   * `for (const chatId of groupsToShareLinks)` from the `i`-th group on, with the messages
   * `sent` so far and `currentLinkIndex` as it stands: each group is offered
   * `LinksToShare[cursor]`; only a delivery moves the cursor on, a failure is caught and the
   * next group is offered the same link.
   */
  function ShareFrom(groups: seq<string>, outcomes: seq<Outcome>, i: nat, cursor: nat, sent: seq<Outbound>): (r: Round)
    requires |outcomes| == |groups| && i <= |groups| && cursor < |LinksToShare|
    ensures r.cursor < |LinksToShare|
    decreases |groups| - i
  {
    if i == |groups| then Round(sent, cursor)
    else ShareFrom(groups, outcomes, i + 1, NextCursor(cursor, outcomes[i]), sent + Visit(groups[i], cursor, outcomes[i]))
  }

  /** The whole loop, starting at the first group with nothing sent. */
  function ShareLoop(groups: seq<string>, cursor: nat, outcomes: seq<Outcome>): (r: Round)
    requires |outcomes| == |groups| && cursor < |LinksToShare|
    ensures r.cursor < |LinksToShare|
  {
    ShareFrom(groups, outcomes, 0, cursor, [])
  }

  /** The whole callback: nothing at all unless sharing is on and some group is subscribed. */
  function Tick(st: State, outcomes: seq<Outcome>): (r: Effect)
    requires st.currentLinkIndex < |LinksToShare| && |outcomes| == |st.groupsToShareLinks|
    ensures r.state == st.(currentLinkIndex := r.state.currentLinkIndex)
    ensures !st.linkSharingActive || st.groupsToShareLinks == [] ==> r == Effect(st, [])
    ensures r.state.currentLinkIndex < |LinksToShare|
    ensures Valid(st) ==> Valid(r.state)
  {
    if st.linkSharingActive && |st.groupsToShareLinks| > 0 then
      var round := ShareLoop(st.groupsToShareLinks, st.currentLinkIndex, outcomes);
      Effect(st.(currentLinkIndex := round.cursor), round.sends)
    else
      Effect(st, [])
  }

  lemma {:induction false} SuccessesAppend(a: seq<Outcome>, b: seq<Outcome>)
    ensures Successes(a + b) == Successes(a) + Successes(b)
    decreases |a|
  {
    if a == [] {
      assert a + b == b;
    } else {
      assert (a + b)[1..] == a[1..] + b;
      SuccessesAppend(a[1..], b);
    }
  }

  /** The loop only appends: what was sent stays, and one message is added per delivery. */
  lemma {:induction false} ShareFromSends(groups: seq<string>, outcomes: seq<Outcome>, i: nat, cursor: nat, sent: seq<Outbound>)
    requires |outcomes| == |groups| && i <= |groups| && cursor < |LinksToShare|
    ensures sent <= ShareFrom(groups, outcomes, i, cursor, sent).sends
    ensures |ShareFrom(groups, outcomes, i, cursor, sent).sends| == |sent| + Successes(outcomes[i..])
    decreases |groups| - i
  {
    if i == |groups| {
      assert outcomes[i..] == [];
    } else {
      var v := Visit(groups[i], cursor, outcomes[i]);
      ShareFromSends(groups, outcomes, i + 1, NextCursor(cursor, outcomes[i]), sent + v);
      assert outcomes[i..][1..] == outcomes[i + 1..];
    }
  }

  /** The cursor ends as many places further on, modulo the catalog size, as there were deliveries. */
  lemma {:induction false} ShareFromCursor(groups: seq<string>, outcomes: seq<Outcome>, i: nat, cursor: nat, sent: seq<Outbound>)
    requires |outcomes| == |groups| && i <= |groups| && cursor < |LinksToShare|
    ensures ShareFrom(groups, outcomes, i, cursor, sent).cursor == Rotate(cursor, Successes(outcomes[i..]))
    decreases |groups| - i
  {
    if i == |groups| {
      assert outcomes[i..] == [];
    } else {
      var v := Visit(groups[i], cursor, outcomes[i]);
      ShareFromCursor(groups, outcomes, i + 1, NextCursor(cursor, outcomes[i]), sent + v);
      assert outcomes[i..][1..] == outcomes[i + 1..];
    }
  }

  /** The group at `i`, when delivered, gets the next message, with the link the cursor points at. */
  lemma ShareFromSendHere(groups: seq<string>, outcomes: seq<Outcome>, i: nat, cursor: nat, sent: seq<Outbound>)
    requires |outcomes| == |groups| && i < |groups| && cursor < |LinksToShare|
    requires outcomes[i].Delivered?
    ensures |sent| < |ShareFrom(groups, outcomes, i, cursor, sent).sends|
    ensures ShareFrom(groups, outcomes, i, cursor, sent).sends[|sent|] == Offer(groups[i], outcomes[i].preview, LinksToShare[cursor])
  {
    var v := Visit(groups[i], cursor, outcomes[i]);
    assert v == [Offer(groups[i], outcomes[i].preview, LinksToShare[cursor])];
    ShareFromSends(groups, outcomes, i + 1, NextCursor(cursor, outcomes[i]), sent + v);
    assert (sent + v)[|sent|] == v[0];
  }

  /** The delivered `j`-th group's message, placed after those of the deliveries before it. */
  lemma {:induction false} ShareFromSendAt(groups: seq<string>, outcomes: seq<Outcome>, i: nat, cursor: nat, sent: seq<Outbound>, j: nat)
    requires |outcomes| == |groups| && i <= j < |groups| && cursor < |LinksToShare|
    requires outcomes[j].Delivered?
    ensures var r := ShareFrom(groups, outcomes, i, cursor, sent);
            var k := |sent| + Successes(outcomes[i..j]);
            var url := LinksToShare[Rotate(cursor, Successes(outcomes[i..j]))];
            && k < |r.sends|
            && r.sends[k] == Offer(groups[j], outcomes[j].preview, url)
    decreases j - i
  {
    if i == j {
      ShareFromSendHere(groups, outcomes, i, cursor, sent);
      assert outcomes[i..j] == [];
    } else {
      var next := NextCursor(cursor, outcomes[i]);
      var v := Visit(groups[i], cursor, outcomes[i]);
      ShareFromSendAt(groups, outcomes, i + 1, next, sent + v, j);
      var later := Successes(outcomes[i + 1..j]);
      assert outcomes[i..j][1..] == outcomes[i + 1..j];
      assert Successes(outcomes[i..j]) == |v| + later;
      assert Rotate(cursor, |v| + later) == Rotate(next, later);
    }
  }

  /** Each new message of the loop is a text sent to one of the groups. */
  lemma {:induction false} ShareFromRecipients(groups: seq<string>, outcomes: seq<Outcome>, i: nat, cursor: nat, sent: seq<Outbound>)
    requires |outcomes| == |groups| && i <= |groups| && cursor < |LinksToShare|
    ensures forall o :: o in ShareFrom(groups, outcomes, i, cursor, sent).sends ==> o in sent || (o.SendText? && o.to in groups)
    decreases |groups| - i
  {
    if i < |groups| {
      var v := Visit(groups[i], cursor, outcomes[i]);
      ShareFromRecipients(groups, outcomes, i + 1, NextCursor(cursor, outcomes[i]), sent + v);
    }
  }

  /** The catalog index the `i`-th visited group is offered in a tick that starts at `cursor`. */
  function LinkIndexAt(cursor: nat, outcomes: seq<Outcome>, i: nat): (r: nat)
    requires i <= |outcomes|
    ensures r < |LinksToShare|
  {
    (cursor + Successes(outcomes[..i])) % |LinksToShare|
  }

  /**
   * The cursor moves on exactly when a group's delivery succeeds: after a failure the next
   * group is offered the same link, after a delivery the following one in the catalog.
   */
  lemma NextLinkIndex(cursor: nat, outcomes: seq<Outcome>, i: nat)
    requires i < |outcomes| && cursor < |LinksToShare|
    ensures !outcomes[i].Delivered? ==> LinkIndexAt(cursor, outcomes, i + 1) == LinkIndexAt(cursor, outcomes, i)
    ensures outcomes[i].Delivered? ==> LinkIndexAt(cursor, outcomes, i + 1) == Advance(LinkIndexAt(cursor, outcomes, i))
  {
    assert outcomes[..i + 1] == outcomes[..i] + [outcomes[i]];
    SuccessesAppend(outcomes[..i], [outcomes[i]]);
    assert Successes([outcomes[i]]) == if outcomes[i].Delivered? then 1 else 0 by {
      assert [outcomes[i]][1..] == [];
    }
  }

  /** A tick sends one message per delivery and leaves the cursor moved on once per delivery. */
  lemma ShareLoopTotals(groups: seq<string>, cursor: nat, outcomes: seq<Outcome>)
    requires |outcomes| == |groups| && cursor < |LinksToShare|
    ensures |ShareLoop(groups, cursor, outcomes).sends| == Successes(outcomes)
    ensures ShareLoop(groups, cursor, outcomes).cursor == (cursor + Successes(outcomes)) % |LinksToShare|
  {
    ShareFromSends(groups, outcomes, 0, cursor, []);
    ShareFromCursor(groups, outcomes, 0, cursor, []);
    assert outcomes[0..] == outcomes;
    RotateIsModulo(cursor, Successes(outcomes));
  }

  /**
   * Each delivered group receives exactly one message, `title\n\ndescription\nurl` for the
   * link it was offered, at the position given by the number of deliveries before it.
   */
  lemma ShareLoopSendAt(groups: seq<string>, cursor: nat, outcomes: seq<Outcome>, i: nat)
    requires |outcomes| == |groups| && cursor < |LinksToShare|
    requires i < |groups| && outcomes[i].Delivered?
    ensures Successes(outcomes[..i]) < |ShareLoop(groups, cursor, outcomes).sends|
    ensures ShareLoop(groups, cursor, outcomes).sends[Successes(outcomes[..i])] ==
              Offer(groups[i], outcomes[i].preview, LinksToShare[LinkIndexAt(cursor, outcomes, i)])
  {
    ShareFromSendAt(groups, outcomes, 0, cursor, [], i);
    assert outcomes[0..i] == outcomes[..i];
    RotateIsModulo(cursor, Successes(outcomes[..i]));
  }

  /** Every message of a tick is a text sent to a subscribed group. */
  lemma ShareLoopRecipients(groups: seq<string>, cursor: nat, outcomes: seq<Outcome>)
    requires |outcomes| == |groups| && cursor < |LinksToShare|
    ensures forall o :: o in ShareLoop(groups, cursor, outcomes).sends ==> o.SendText? && o.to in groups
  {
    ShareFromRecipients(groups, outcomes, 0, cursor, []);
  }

  /** With sharing on, a tick sends one message per delivery and moves the cursor on once per delivery. */
  lemma TickTotals(st: State, outcomes: seq<Outcome>)
    requires st.currentLinkIndex < |LinksToShare| && |outcomes| == |st.groupsToShareLinks|
    requires st.linkSharingActive
    ensures |Tick(st, outcomes).out| == Successes(outcomes)
    ensures Tick(st, outcomes).state.currentLinkIndex == (st.currentLinkIndex + Successes(outcomes)) % |LinksToShare|
  {
    ShareLoopTotals(st.groupsToShareLinks, st.currentLinkIndex, outcomes);
  }

  /**
   * The broadcast is not exempt from the link check: its text starts with the page title, not
   * with the first catalog link, so a copy of it posted in a group under antilink is deleted.
   */
  lemma OwnBroadcastIsChecked(st: State, msg: Inbound, t: string, d: string)
    requires st.antiLinkActive
    requires MessageText(msg) == Some(PreviewText(t, d, LinksToShare[0]))
    requires t == "" || (t[0] != '!' && t[0] != 'h')
    ensures |HandleMessage(st, msg).out| == 1
    ensures HandleMessage(st, msg).out[0].SendDelete?
    ensures HandleMessage(st, msg).out[0].target.id == msg.key.id
  {
    var url := LinksToShare[0];
    var text := PreviewText(t, d, url);
    assert msg.message.Some?;
    assert text[0] == if t == "" then '\n' else t[0];
    assert !(AntilinkPrefix <= text) by { assert AntilinkPrefix[0] == '!'; }
    assert !(LinkSharingPrefix <= text) by { assert LinkSharingPrefix[0] == '!'; }
    assert !(url <= text) by { assert url[0] == 'h'; }
    assert !(LinkGuard.InviteHost <= url[8..]) by { assert url[8] == 'w'; }
    LinkGuard.OtherLinkIsForbiddenAt(url, 0, "https://");
    var front := t + "\n\n" + d + "\n";
    assert text == front + url;
    LinkGuard.ForbiddenAfterPrefix(front, url);
  }

  /** What happens to the bot between two states: one `messages.upsert` event, or one interval tick. */
  datatype Event = Upsert(msgs: seq<Inbound>) | Interval(fate: string -> Outcome)

  /** The tick's outcomes, in visiting order, when each group's fetch and send come to `fate` of it. */
  function OutcomesFor(groups: seq<string>, fate: string -> Outcome): (r: seq<Outcome>)
    ensures |r| == |groups|
    ensures forall i :: 0 <= i < |groups| ==> r[i] == fate(groups[i])
  {
    seq(|groups|, i requires 0 <= i < |groups| => fate(groups[i]))
  }

  function Step(st: State, e: Event): (r: Effect)
    requires st.currentLinkIndex < |LinksToShare|
    ensures r.state.currentLinkIndex < |LinksToShare|
    ensures Valid(st) ==> Valid(r.state)
  {
    match e
    case Upsert(msgs) => Run(st, msgs)
    case Interval(fate) => Tick(st, OutcomesFor(st.groupsToShareLinks, fate))
  }

  /** The state after a run of events, in order. */
  function Lifetime(st: State, events: seq<Event>): (r: State)
    requires st.currentLinkIndex < |LinksToShare|
    decreases |events|
  {
    if events == [] then st else Lifetime(Step(st, events[0]).state, events[1..])
  }

  /**
   * From the declared initial values, through any interleaving of message events and ticks, the
   * two sets stay equal and duplicate-free and the cursor stays inside the catalog.
   */
  lemma {:induction false} LifetimeKeepsValid(st: State, events: seq<Event>)
    requires Valid(st)
    ensures Valid(Lifetime(st, events))
    decreases |events|
  {
    if events != [] {
      LifetimeKeepsValid(Step(st, events[0]).state, events[1..]);
    }
  }

  lemma AlwaysValid(events: seq<Event>)
    ensures Valid(Lifetime(Initial, events))
  {
    LifetimeKeepsValid(Initial, events);
  }

  /**
   * The sharing flag is global: `!linksharing 0` in any one chat silences the next tick for
   * every chat, even those still subscribed.
   */
  lemma UnsubscribeSilencesEveryGroup(st: State, chatId: string, outcomes: seq<Outcome>)
    requires Valid(st)
    requires |outcomes| == |LinkSharingCommand(st, chatId, LinkSharingOff).state.groupsToShareLinks|
    ensures Tick(LinkSharingCommand(st, chatId, LinkSharingOff).state, outcomes).out == []
  {
  }
}
