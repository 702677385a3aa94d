# Group moderation bot: verified model of its state machine

This project models, in Dafny, the in-process core of a WhatsApp group bot (`index.js`):

- the five module-level variables: the antilink flag, the link-sharing flag, the two chat
  sets `groupsToShareLinks` and `allGroups`, and the rotation cursor `currentLinkIndex`
  into the fixed two-link catalog `linksToShare`;
- the routing of each inbound message by `startsWith` on its text;
- the `!antilink` and `!linksharing` command handlers;
- the antilink check (a regular expression searched in the text) and the delete request it
  triggers;
- one tick of the periodic broadcast loop, with its shared cursor;
- the title and description scan of a fetched page.

The model has two layers:

- **Pure layer.** The state is a value (`Moderation.State`). Every handler is a function from
  the old state to the new state and the list of `sendMessage` requests, in order (`Effect`).
- **Imperative layer.** `Bot.ModerationBot` is a class with the five variables as fields. Its
  handlers, the `messages.upsert` loop and the interval callback are methods that update those
  fields in place. Each method is proved to produce exactly what the pure layer gives for the
  old state.

The lemmas state the properties the bot relies on. The two sets are always equal, duplicate-free
and in the same insertion order. The flags and the subscriptions follow the last exact command.
Command texts are never deleted. The cursor stays in range and moves on only after a delivery.
Every delivered group gets exactly `title + "\n\n" + description + "\n" + url`.

The JavaScript `Set`s are modelled as duplicate-free sequences in insertion order:

- `add` of a present chat keeps its position;
- `add` of a new chat appends it;
- `delete` removes it and keeps the order of the rest.

The per-group outcome of a broadcast is an input (`Broadcast.Outcome`). It covers the preview
fetch, the five-second race and the send. A delivery carries the object the preview helper
resolved with; for a fetched page `html` that object is `Preview.PreviewOf(html)`, so its title
and description come from the modelled scan.

### Behaviour of `index.js` worth knowing

- The invite exemption is a prefix test on the text right after `://` (index.js:154). So
  `https://chat.whatsapp.com.example/x` is exempt as well (`LinkGuard.InviteIsExemptAt`).
- The cursor advances only after the send has succeeded, inside the `try` block
  (index.js:180-195). A group whose fetch or send fails leaves the same link for the next group
  (`Broadcast.NextLinkIndex`).
- The body of any response that `fetch` resolves with is scanned, whatever its HTTP status
  (index.js:28-37). Only a thrown error, the timeout or a failed send skip a group.
- The two sets are equal at all times: `!linksharing on` adds the chat to both and
  `!linksharing 0` removes it from both (index.js:137-144, `Broadcast.AlwaysValid`).
- Empty text is falsy (index.js:99, 107-111). A message whose text is `""` is ignored like one
  with no text, and an empty `conversation` falls through to `extendedTextMessage.text`.
- Text that starts with the first catalog link is never checked for links, whatever follows it
  (index.js:111).
- That exemption does not cover the bot's own broadcast, because its text starts with the page
  title, not with the link (index.js:111, 189). The exception is a page title that itself
  begins with that link, or with a command prefix, which routes the text to a command handler.
  Under antilink, a copy of the broadcast posted in a group is otherwise deleted like any other
  forbidden link (`Broadcast.OwnBroadcastIsChecked`).

## Model

| member | source | states |
|---|---|---|
| OrderedSet.Add | index.js:137-138 | `Set.add`: the members become the old ones plus the chat; the old order is a prefix of the new one; adding a present chat changes nothing; no duplicates appear |
| OrderedSet.Delete | index.js:143-144 | `Set.delete`: the members become the old ones minus the chat; deleting an absent chat changes nothing |
| OrderedSet.DeleteKeepsOrder | index.js:143-144 | `Set.delete` of a present chat takes it out where it stands and keeps every other chat in its order |
| OrderedSet.DeleteKeepsNoDup | index.js:143-144 | deleting from a duplicate-free set keeps it duplicate-free and removes exactly one element when the chat was present |
| Messages.OrElse | index.js:98 | JavaScript `a \|\| b` on an optional string: `a` when present and non-empty, otherwise `b`; the result is truthy exactly when `a` or `b` is |
| LinkGuard.LinkWith | index.js:154 | a match at a position with a given scheme needs a character after the scheme, and the text there never starts with the scheme followed by `chat.whatsapp.com` |
| LinkGuard.LinkAt | index.js:154 | a match at a position starts with `http`, has room for `://`, and the character seven places on is not whitespace |
| LinkGuard.LinkFrom | index.js:154-155 | the scan from position `i` answers true exactly when the pattern matches at some start position at or after `i` |
| LinkGuard.HasForbiddenLink | index.js:154-155 | `linkRegex.test(text)` holds exactly when some position starts `http://` or `https://`, followed by a non-whitespace character, where the text after `://` does not begin with `chat.whatsapp.com` |
| LinkGuard.InviteIsExemptAt | index.js:154 | a link whose text after `://` begins with `chat.whatsapp.com` is not matched at its position, whatever follows the host |
| LinkGuard.OtherLinkIsForbiddenAt | index.js:154-155 | any other `http://` or `https://` followed by a non-whitespace character is matched, and the message is flagged |
| LinkGuard.ForbiddenAfterPrefix | index.js:154-155 | text in front of a forbidden link never hides it |
| LinkGuard.ForbiddenBeforeWhitespace | index.js:154-155 | a forbidden link stays forbidden when whitespace and further words, such as an invite link, follow it |
| Preview.CloseFrom | index.js:36-37 | the lazy `(.*?)` stops at the first position where the closing text begins, provided no line terminator lies before it; otherwise the closing text is unreachable |
| Preview.Scan | index.js:36-37 | `html.match`: the leftmost start with a match, and for it the shortest capture; no match anywhere at or after `i` when it finds none |
| Preview.Extract | index.js:36-37 | the capture of the first match, or `''` when nothing matches; it never contains a line terminator |
| Preview.PreviewOf | index.js:35-40 | the helper's `{ title, description }` for a fetched page; neither part contains a line terminator |
| Preview.Title | index.js:36 | the extracted title never contains a line terminator |
| Preview.Description | index.js:37 | the extracted description never contains a line terminator |
| Preview.ExtractLeadingMatch | index.js:36-37 | a page that begins with the opening text, then a capture without line terminators in which the closing text does not begin, then the closing text, yields exactly that capture, whatever follows |
| Preview.TitleOfPage | index.js:36 | `<title>t</title>` at the head of a page gives `t`, when `t` has no line terminator and `</title>` does not begin inside it (so `a < b` is captured whole) |
| Preview.DescriptionOfPage | index.js:37 | the description meta tag at the head of a page gives its content `d`, when `d` has no line terminator and no `"` |
| Preview.NoTitleTag | index.js:36 | a page without `<title>` has the empty title |
| Routing.UserMessage | index.js:99 | the text is `conversation` when that is non-empty, otherwise `extendedTextMessage.text`; it is truthy exactly when one of them is |
| Routing.Classify | index.js:107-113 | absent or empty text takes no route; `!antilink` texts go to the antilink handler; `!linksharing` texts go to the link-sharing handler; exactly the other texts not starting with `linksToShare[0]` go to link detection |
| Routing.PrefixesExclusive | index.js:107-110 | no text starts with both command prefixes |
| Routing.OwnLinkIsNeverChecked | index.js:111 | text starting with the first catalog link takes no route |
| Moderation.Notices | index.js:124 | the fan-out sends one notice to each group of `allGroups`, in set order |
| Moderation.AntilinkCommand | index.js:119-131 | only the antilink flag can change. `!antilink on` sets it, replies `correcto` and notifies every group with `¡Antilink activado!`. `!antilink 0` clears it, replies `desactivada` and sends `¡Antilink desactivado!`. Any other text changes and sends nothing |
| Moderation.LinkSharingCommand | index.js:134-148 | `!linksharing on` sets the global flag, puts the chat in both sets and replies `correcto`. `!linksharing 0` clears the flag, removes the chat from both sets and replies `desactivada.`. Other chats' membership is untouched. Other texts are no-ops. The set invariant is preserved |
| Moderation.LinkDetection | index.js:151-169 | a delete request is produced exactly when antilink is on and the text has a forbidden link. It retracts that message: `remoteJid` is the chat, `fromMe` is false, `id` is the message id, and `participant` is `key.participant` or else the sender |
| Moderation.HandleMessage | index.js:95-113 | a message without text changes nothing; no message moves the cursor; the set invariant is preserved |
| Moderation.Run | index.js:95-114 | the `for…of` loop over one event's messages never moves the cursor and keeps the set invariant; `RunFollowsLatest` and `DeletedExactlyWhen` state what it does to the settings and when it deletes |
| Moderation.DeletedExactlyWhen | index.js:107-163 | a message yields a delete request exactly when antilink is on and its text is non-empty, starts with neither command prefix nor the first catalog link, and holds a forbidden link |
| Moderation.CommandIsNeverDeleted | index.js:107-112 | a command text, even one containing a link, never leads to a delete request |
| Moderation.OwnLinkIsIgnored | index.js:111 | a message starting with the first catalog link changes nothing and sends nothing |
| Moderation.HandleMessageSetting | index.js:119-148 | one message sets the antilink flag, the sharing flag or a chat's subscription only when it is the exact command for it |
| Moderation.RunFollowsLatest | index.js:94-148 | after any message sequence, each flag and each chat's subscription equals the value the last exact command gave it, or its old value |
| Moderation.SubscribeThenUnsubscribe | index.js:134-148 | turning sharing on and then off in a chat leaves the chat in neither set and the flag off |
| Broadcast.Advance | index.js:192 | the advanced cursor stays inside the catalog |
| Broadcast.TextLayout | index.js:189 | the template text is the title, then `"\n\n"`, then the description and `"\n"`, then the link, and nothing else |
| Broadcast.OfferLayout | index.js:188-190 | the message sent to `chatId` for a fetched page is its title, a blank line, its description, a line break and the link; the title is exactly its first line and the link ends it |
| Broadcast.Visit | index.js:180-190 | a delivered group receives one message and a failed one none |
| Broadcast.NextCursor | index.js:192-195 | the cursor after one group stays inside the catalog |
| Broadcast.LinkIndexAt | index.js:180 | the link a group is offered is always a catalog index |
| Broadcast.NextLinkIndex | index.js:180-195 | after a failure the next group is offered the same link; after a delivery it is offered the next link modulo the catalog size |
| Broadcast.Rotate | index.js:192 | any number of advances leaves the cursor inside the catalog |
| Broadcast.RotateIsModulo | index.js:192 | `k` advances move the cursor `k` places on, modulo the catalog size |
| Broadcast.ShareFrom | index.js:177-196 | the loop from any group on leaves the cursor inside the catalog |
| Broadcast.ShareFromSends | index.js:177-196 | the loop only appends: earlier messages stay, and one message is added per delivery |
| Broadcast.ShareFromCursor | index.js:192 | the loop advances the cursor exactly once per delivery and never after a failure |
| Broadcast.ShareFromSendAt | index.js:180-192 | a delivered group's message is the preview for the link the cursor pointed at, after one advance per earlier delivery |
| Broadcast.ShareFromRecipients | index.js:177-190 | every message the loop adds is a text to one of the visited groups |
| Broadcast.ShareLoop | index.js:177-196 | the whole loop leaves the cursor inside the catalog |
| Broadcast.ShareLoopTotals | index.js:177-196 | one message per delivery, and the cursor moved on by the number of deliveries, modulo the catalog size |
| Broadcast.ShareLoopSendAt | index.js:180-190 | each delivered group receives `title + "\n\n" + description + "\n" + url`, where `url` is the link it was offered; the message sits at the position given by the deliveries before it |
| Broadcast.ShareLoopRecipients | index.js:177-190 | every broadcast message is a text to a subscribed group |
| Broadcast.Tick | index.js:173-198 | with sharing off or no subscribed group, nothing is sent and nothing changes. Otherwise only the cursor changes, it stays inside the catalog, and the set invariant is preserved |
| Broadcast.TickTotals | index.js:175-195 | after a tick with sharing on, one message was sent per delivery and the cursor has advanced once per delivery, modulo the catalog size |
| Broadcast.OwnBroadcastIsChecked | index.js:111 | a copy of the broadcast for the first catalog link, whose title is empty or starts with neither `!` nor `h`, is deleted under antilink: exactly one delete request, for that message |
| Broadcast.Step | index.js:94-198 | one message event or one tick keeps the cursor inside the catalog and keeps the set invariant |
| Broadcast.LifetimeKeepsValid | index.js:94-198 | through any interleaving of message events and ticks from a valid state, the two sets stay equal and duplicate-free and the cursor stays inside the catalog |
| Broadcast.AlwaysValid | index.js:15-22 | from the declared initial values, every reachable state keeps the two sets equal and duplicate-free and the cursor inside the catalog |
| Broadcast.UnsubscribeSilencesEveryGroup | index.js:141-142 | `!linksharing 0` in any one chat stops the next broadcast for every chat, including those still subscribed |
| Bot.ModerationBot.constructor | index.js:15-22 | the variables start as declared: antilink on, sharing off, both sets empty, cursor 0 |
| Bot.ModerationBot.NotifyAllGroups | index.js:129 | the `forEach` loop produces one notice per group of `allGroups`, in order |
| Bot.ModerationBot.HandleAntilinkCommand | index.js:119-131 | the in-place handler yields the new state and sends that `Moderation.AntilinkCommand` gives, and keeps the invariant |
| Bot.ModerationBot.HandleLinkSharingCommand | index.js:134-148 | the in-place handler yields the new state and sends that `Moderation.LinkSharingCommand` gives, and keeps the invariant |
| Bot.ModerationBot.HandleLinkDetection | index.js:152-163 | reads the flag and produces the delete requests of `Moderation.LinkDetection` |
| Bot.ModerationBot.HandleMessage | index.js:96-113 | the routed handling of one message matches `Moderation.HandleMessage` |
| Bot.ModerationBot.OnMessagesUpsert | index.js:94-115 | the `for…of` loop over an event's messages matches the fold `Moderation.Run` |
| Bot.ModerationBot.ShareWithGroup | index.js:178-195 | one pass of the loop body: only a delivery sends the preview and advances the cursor, and no other variable changes |
| Bot.ModerationBot.ShareTick | index.js:173-197 | the interval callback, updating `currentLinkIndex` in place group by group, matches `Broadcast.Tick` |

## Left out

- Socket creation, authentication state, saving credentials and reconnection
  (index.js:62-91) are calls into the chat client library.
- Starting the broadcast on each `open` event is not modelled either (index.js:86).
- The network part of the preview helper is not modelled (index.js:28-35). A fetched page enters
  the model as its text `html`, and the preview built from it (`Preview.PreviewOf`) is what
  `Broadcast.Outcome.Delivered` carries.
- A fetch error makes the helper return `null`, and reading `preview.title` then throws. Both
  appear only as the outcome `FetchFailed`.
- `generateThumbnail` (index.js:48-59) is never called and works on image bytes.
- Timing is not modelled: the interval period (index.js:23) and the five-second timeout race
  (index.js:182-185). The race appears only as its result, the outcome `TimedOut`.
- Concurrency is not modelled: overlapping intervals, handlers interleaving at `await`
  points, and abandoned fetches. Each handler and each tick runs to completion on the state it
  started from.
- The un-awaited notice sends are not modelled as concurrent (index.js:124, 129). They are
  requests in the output list, in set order.
- Send failures are not modelled in the handlers. A rejected reply in a command handler would
  abort the rest of that event's loop. A rejected delete is caught and logged (index.js:165-167).
  The model records requests, not their delivery.
- In the broadcast, a failed send is the outcome `SendFailed`, which sends nothing and does not
  move the cursor.
- Console logging is left out (index.js:39, 42, 102-104, 140, 146, 164, 166, 176, 194).
- Strings are modelled as sequences of Unicode code points, not UTF-16 code units. Every
  character the patterns test for lies in the Basic Multilingual Plane, so the verdicts and
  captures are the same.
