# slack-grouper, modelled in Dafny

slack-grouper is a Slack bot that manages user groups through slash
commands: `/group-create`, `/group-invite` (with accept and decline buttons
handled by the `grouper_invite` action), `/group-subscribe`,
`/group-unsubscribe` and `/group-list`. Every handler lives in
`src/index.js`. Most of each handler is calls to the Slack Web API. This
project models the logic those calls are built from: the values each
handler computes before it talks to Slack.

- `strings.dfy` (`Strings`): the JavaScript string operations the handlers
  use. These are `trim` with the JavaScript white-space set, `split` and
  `join` on one separator character, `includes`, and the decimal text of a
  count.
- `patterns.dfy` (`Patterns`): hand-written scanners for the seven fixed
  regular expressions of the source. They fold ASCII letters for the `i`
  flag. `First` is `match` without `g` (the leftmost match). `MatchAll` and
  `Matched` are `match` with `g`, where each search resumes at the end of
  the previous match. `/group-invite` (line 45) and the other three handlers
  (lines 148, 175 and 221) use two different subteam patterns.
  `FirstSubteamId` proves that both find a match at the same index and
  capture the same group id. Some lemmas state what a pattern matches
  without reference to its scanner. They cover the first match of the
  handle, name, subteam and user-id patterns, and every mention token.
  The `|name>` pattern is described inside a mention token.
- `membership.dfy` (`Membership`): the comma-joined member lists that
  subscribing, accepting an invitation and unsubscribing send to
  `usergroups.users.update`.
- `payload.dfy` (`InvitePayload`): how the invitation buttons pack the
  inviter and the group, and how the action handler unpacks them.
- `commands.dfy` (`Commands`): the outcome of each handler. Every Slack
  call becomes a value, such as the create call, the list of direct
  messages, or the update call. `Invite` is a method with a loop, as the
  handler's `forEach` is.
- `group_list.dfy` (`GroupList`): the `/group-list` reply. It is a method
  that reassigns the handler's locals (`usergroups`, `title`, `fields`)
  branch by branch, proved against the `Kept` and `LastUsers` functions.
- `wrappers.dfy` (`Wrappers`): `Option` and `Result`.

The model follows the code, including these behaviours of it:

- Subscribing prepends the invoker to the current members and never removes
  duplicates. A member who subscribes again is listed twice
  (`Membership.SubscribedEntries`).
- `/group-unsubscribe` still sends "Unsubscribed!" (line 200) after refusing
  the group's only member (`Commands.UnsubscribeNotices`).
- The subteam branch of `/group-list` returns its own reply (lines 229-241).
  It never gives the "No results" field, even when no group has the id
  (`GroupList.List`).
- In `/group-invite`, a mention without a `|name` part makes line 66 throw.
  This stops the sends for that mention and for every later one
  (`Commands.Invite`).

## Model

| member | source | states |
|---|---|---|
| Strings.Trim | src/index.js:212 | The result is a slice of the input with no white space at either end, and only white space is cut off before and after it. |
| Strings.TrimIdempotent | src/index.js:212 | Trimming twice is the same as trimming once. |
| Strings.Split | src/index.js:103-104 | `split` always gives at least one piece, and no piece holds the separator. |
| Strings.SplitJoin | src/index.js:103-104 | Splitting a join gives the parts back when no part holds the separator. |
| Strings.JoinSplit | src/index.js:188 | Joining the pieces of a split gives the original string back. |
| Strings.SplitAtFirst | src/index.js:103-104 | Splitting `x + d + y` when `x` has no `d` gives `x` followed by the pieces of `y`. |
| Strings.JoinEmpty | src/index.js:188-189 | A join is the empty string exactly when there are no parts or a single empty part. |
| Strings.DecimalValue | src/index.js:262 | The decimal text of a user count reads back as that count. |
| Patterns.RunLength | src/index.js:12-13 | A greedy repetition covers only characters of its class and stops at the end or at a character outside it. |
| Patterns.RunLengthUnique | src/index.js:12-13 | Any run that stops at the end or at a character outside the class is the greedy run. |
| Patterns.Search | src/index.js:12 | The result is a match at or after the start index, and no match starts before it. With no result, no index matches. |
| Patterns.FirstIsLeftmost | src/index.js:12 | A match with no earlier match is the one `match` without `g` returns. |
| Patterns.MatchAll | src/index.js:53 | The `g` matches are matches from left to right without overlap, and the first is the leftmost one. There are none exactly when the search finds nothing. |
| Patterns.MatchAllResumes | src/index.js:53 | Each later `g` match is the leftmost match from the end of the one before it. |
| Patterns.MatchAllComplete | src/index.js:53 | No match is skipped: every index where the pattern matches is inside one of the `g` matches. |
| Patterns.Matched | src/index.js:53 | There is one matched text per `g` match. |
| Patterns.MatchedTexts | src/index.js:53 | The k-th matched text is the text of the k-th match. |
| Patterns.PipeNameOfMention | src/index.js:53-66 | The name pattern finds a name in a mention token exactly when the token has a `\|name` part, and finds that same name. |
| Patterns.FirstHandle | src/index.js:12 | The handle pattern matches exactly where `@` precedes an identifier character. Its first match captures the whole identifier after the leftmost such `@`. |
| Patterns.FirstName | src/index.js:13 | The name pattern matches exactly where white space precedes two characters other than `#`/`@`. Its first match captures the whole run up to the next `#`, `@` or the end. |
| Patterns.FirstSubteam | src/index.js:45 | The subteam pattern matches exactly where `subteam^` (any case) precedes an identifier character. The first match captures the whole group id, which has no `\|`. |
| Patterns.FirstSubteamId | src/index.js:148 | The short subteam pattern of lines 148, 175 and 221 matches exactly when the long one of line 45 does. It matches at the same index and captures the same group id. |
| Patterns.SearchSubteamAgrees | src/index.js:221 | From any index on, both subteam patterns find their match at the same index with the same group id. |
| Patterns.MentionAtToken | src/index.js:53 | Where the mention pattern matches, a mention token starts: `<@`, `U`, identifier characters, then `>` or `\|`, a name and `>`. The captures are the id and the name. |
| Patterns.MentionTokenMatches | src/index.js:53 | Where a mention token starts, the mention pattern matches the whole token and captures its id and name. |
| Patterns.FirstUserRef | src/index.js:222 | The user-id pattern matches exactly where `@U` (any case) precedes an identifier character. It captures the `U` and the whole identifier. |
| Membership.AppendEachIsJoin | src/index.js:135 | The `reduce` that appends `,user` for each user joins the start value and the users with commas. |
| Membership.Subscribed | src/index.js:161 | The new member list is the invoker followed by every current member, comma-joined. |
| Membership.SubscribedEntries | src/index.js:135 | Read back, the list is the invoker then the current members. It has one more entry, with no de-duplication. |
| Membership.Remaining | src/index.js:188 | The filter drops every occurrence of the invoker and keeps every other member as often as before. |
| Membership.RemainingConcat | src/index.js:188 | The filter keeps order. |
| Membership.Unsubscribed | src/index.js:188-193 | The refusal comes exactly when the joined remainder is empty. Otherwise the update is that non-empty join. |
| Membership.UnsubscribeRefusedIff | src/index.js:188-193 | With non-empty ids, unsubscribing is refused exactly when every current member is the invoker. |
| Membership.UnsubscribedEntries | src/index.js:188-197 | Read back, the pushed list is the other members in order, without the invoker. |
| InvitePayload.ParseFlag | src/index.js:107 | The flag parses exactly when it reads `true` or `false`, and yields that boolean. |
| InvitePayload.DecodeEncode | src/index.js:78-88 | Decoding a button gives back exactly the encoded inviter id, inviter name, group and choice if and only if none of the three fields holds a `\|`. |
| Commands.CreateUsageIff | src/index.js:12-19 | `/group-create` replies with the usage hint exactly when no `@` precedes an identifier character. |
| Commands.CreateHandle | src/index.js:12-23 | The handle asked for is the whole identifier after the leftmost `@` that precedes one. |
| Commands.CreateNameDefault | src/index.js:13-22 | Without a name run, the group is named after its handle. |
| Commands.CreateNameRun | src/index.js:13-22 | With a name run, the name is the leftmost run of two or more characters other than `#`/`@` after white space, trimmed. |
| Commands.CreateHandleName | src/index.js:12-24 | `@handle Group Name` creates group `Group Name` with handle `handle`. |
| Commands.HandleOfForm | src/index.js:12 | In `@handle Group Name` the handle match is the whole handle. |
| Commands.NameOfForm | src/index.js:13 | In `@handle Group Name` the name match is the whole group name. |
| Commands.Invite | src/index.js:45-97 | Usage hint when there is no group reference, and another when there is no mention. Otherwise one DM per mention, in order, to the mention's name, until the first mention without a name aborts the rest. |
| Commands.Respond | src/index.js:101-136 | A bad flag fails with the decoding error. Both answers notify `@` plus the inviter's name from the button, or `@undefined` without one. Accept pushes the responder plus the current members for the payload's group. Decline acknowledges with the inviter id and group from the payload. |
| Commands.InvitationAnswered | src/index.js:78-136 | The accept button of a sent invitation subscribes the responder and notifies `@inviterName`. The decline button only notifies. |
| Commands.Subscribe | src/index.js:148-162 | Usage hint exactly when no `subteam^id` occurs. Otherwise the first group id gets the invoker plus the current members. |
| Commands.Unsubscribe | src/index.js:175-197 | Usage hint exactly when no `subteam^id` occurs. Otherwise it refuses when nothing remains, or pushes the non-empty remainder to the first group id. |
| Commands.UnsubscribeNotices | src/index.js:177-201 | Exactly one reply is sent, except after the sole-member refusal, which is followed by "Unsubscribed!". The usage hint is sent exactly when no group is given, the refusal exactly for the sole member, and "Unsubscribed!" whenever a group is given. |
| GroupList.UserFieldsReadBack | src/index.js:240-243 | There is one field per user, in order, and its `<@user>` value reads back as that user. |
| GroupList.GroupFieldsReadBack | src/index.js:259-264 | There is one field per group, in order. Its title is the group's name, and its `@handle: count users` value reads back as the handle and the count. |
| GroupList.FilterMembers | src/index.js:238 | A group survives the filter exactly when it is one of the groups and is accepted. |
| GroupList.FilterConcat | src/index.js:250 | Filtering keeps order. |
| GroupList.LastUsersIsLast | src/index.js:239 | The reduce yields the users of the last group, or its start value when there are no groups. |
| GroupList.LastAccepted | src/index.js:238-239 | Filtering and then reducing gives the users of the last accepted group. |
| GroupList.FilterNone | src/index.js:238 | A filter that accepts nothing gives the empty list. |
| GroupList.LastWithId | src/index.js:237-239 | The subteam branch lists the users of the last group with the id, or nothing when no group has it. |
| GroupList.FilterIsKept | src/index.js:247-255 | Each branch's filter is the `Kept` selection. |
| GroupList.KeptMembers | src/index.js:247-255 | A group is kept exactly when it is present and the search keeps it: by user id when the search holds `@U…`, else by a case-sensitive substring of name or handle. |
| GroupList.KeptConcat | src/index.js:247-255 | The selection keeps order. |
| GroupList.KeptAll | src/index.js:251-258 | With an empty search every group is kept. |
| GroupList.List | src/index.js:212-276 | With a subteam reference: the title "Users in", then the users of the last group with that id, and no "No results" field. Otherwise: the title for the branch, then one field per kept group, or only the "No results" field when none is kept. |

## Left out

- The serverless-slack framework and the Lambda handler binding are not modelled.
- Every `bot.send`, `bot.say`, `bot.reply`, `bot.replyPrivate` and `slack.callback` call is network I/O. The model returns the values passed to them instead.
- The data Slack returns (current members, user groups) becomes a parameter.
- Promise sequencing and the concurrency of the invitation sends are not modelled. `Commands.Invite` returns the DMs in the order they are issued.
- The `.catch` error reporting (`err.error`, `already_exists`) is I/O outcome handling and is not modelled.
- The in-channel confirmation of `/group-create` echoes `data.usergroup.handle` from Slack's reply, which is not part of this model.
- Reply wording, emoji, colours and `mrkdwn_in` are not modelled. Only the title branch, the field titles and the field values are.
- `short` absent from the "No results" field is modelled as `false`.
- Only the seven fixed patterns are modelled, not a general regular-expression engine.
- The `i` flag folds ASCII letters only. The patterns with that flag match only ASCII characters, so no other folding can change a match. The name pattern (line 13) has no `i` flag, and its `\s` and `[^#@]` accept characters beyond ASCII.
- Strings are sequences of Unicode scalar values, while JavaScript strings are sequences of UTF-16 code units. The two differ on characters outside the Basic Multilingual Plane. For example, in `@grp 😀` the source's name pattern sees white space followed by the two halves of a surrogate pair, a two-character run, and it names the group `😀`. The model sees one character there, so `Commands.Create` falls back to naming the group `grp`.
- InvitePayload.ParseFlag: any text other than `true` or `false` counts as a parse failure. `JSON.parse` would also accept other JSON values, such as `0` or `null`, and the handler would use their truthiness. The buttons the bot builds only ever carry `true` or `false`.
- The text of an invitation DM and of the fallback is reduced to its parts: channel, inviter, group id and the optional `|@handle` capture.
- A mention whose `|name` part holds a `.` is not a mention at all. This is because the mention pattern's name class has no `.`, while the name lookup on line 66 allows one. The model reproduces this.
