# matrix-gmail-bridge, modelled in Dafny

This project models the deterministic core of matrix-gmail-bridge, an application
service that mirrors Gmail threads into Matrix rooms. Each mail thread gets a room,
and every mail correspondent becomes a virtual Matrix account ("bot") in that room.
The model covers the following parts.

- The naming codec (`app/utils.py`, the naming methods of `AppserviceClient`). It maps
  addresses to virtual account ids and thread ids to room aliases, and back.
- The user record and its login states (`app/models.py`).
- The key-value store with its user index and event ledger (`app/db.py`).
- The transport-side rules of `app/nio_client.py`:
  - message content;
  - the two-step retry on `M_TOO_LARGE`;
  - the power-level merge and read;
  - the backward walk over timeline pages.
- The pure decisions of the Gmail client (`app/gmail.py`):
  - new-id selection;
  - the self-sent filter;
  - body and attachment parsing;
  - header composition and scanning;
  - the OAuth scope check.
- The per-user orchestration in `UserBridge` (`app/bridge.py`):
  - the event ledger;
  - member classification;
  - the power-level encoding of `to`/`cc` and its read-back;
  - the direct-message login machine;
  - the mail-sync watermark.
- The older `EventHandler` (`app/event_handler.py`):
  - the missed-message window and its replay guard;
  - room-message routing;
  - the login conversation;
  - the power map of an incoming mail;
  - the recipients of an outgoing mail.

Network calls, the OAuth exchange and the server's answers are not modelled as calls.
Their results are passed in as parameters, so each operation is a total function of
its inputs. The namespace prefix and the homeserver name are a `Config` parameter.

Modules, one per file:

| file | module | models |
|---|---|---|
| wrappers.dfy | Wrappers | `Option` and `Result` |
| strings.dfy | Strings | the Python string operations the code uses |
| seqs.dfy | Seqs | list comprehensions, removal and reversal |
| email_syntax.dfy | EmailSyntax | the address pattern of `is_valid_email` |
| naming.dfy | Naming | `app/utils.py` |
| models.dfy | Models | `app/models.py` |
| store.dfy | Store | `app/db.py` |
| appservice.dfy | Appservice | `app/nio_client.py` |
| mail.dfy | Mail | `app/gmail.py` and `EMAIL_SCOPES` |
| bridge.dfy | Bridge | `app/bridge.py` |
| legacy.dfy | Legacy | `app/event_handler.py` |

## Model

| member | source | states |
|---|---|---|
| EmailSyntax.CaseInsensitive | app/utils.py:18-19 | address validity does not depend on letter case, because the input is lower-cased before matching |
| EmailSyntax.AddrSpecAt | app/utils.py:10-12 | at the first '@', an address is valid iff the part before it is a dot-atom local part and the part after it is a dotted hostname |
| EmailSyntax.Examples | app/utils.py:120-124 | "a@gmail.com" and "Hk8128@pm.me" are valid; "b a@gmail.com" and "b a@gmail" are not |
| Naming.Sanitize | app/utils.py:64-65 | the result has no '@', and an address without '@' is unchanged |
| Naming.Desanitize | app/utils.py:68-71 | fails exactly when the placeholder "_at_" does not occur; otherwise the LAST occurrence is replaced by '@' and the rest of the name is kept, three characters shorter |
| Naming.DesanitizeSanitize | app/utils.py:64-71 | desanitizing a sanitized address gives it back, for an address with one '@' and no '_' after it |
| Naming.SanitizeInjective | app/utils.py:64-65 | two such addresses with the same sanitized form are equal |
| Naming.DomainHasNoAtOrUnderscore | app/utils.py:10-12 | a valid domain contains neither '@' nor '_' |
| Naming.ValidEmailSanitizable | app/utils.py:18-19 | every valid address round-trips through the codec |
| Naming.Mxid | app/utils.py:52-53 | the generated id starts with '@' and passes `is_bot_mxid` |
| Naming.GenerateMxid | app/utils.py:47-49 | the virtual account of any address passes `is_bot_mxid` |
| Naming.GenerateAlias | app/utils.py:27-28 | the generated alias starts with '#' and passes `is_thread_alias` |
| Naming.ExtractMxidLocalpart | app/utils.py:35-38 | requires the leading '@'; on an id ending in ":"+homeserver, it is exactly the text between them |
| Naming.ExtractAliasLocalpart | app/utils.py:30-33 | requires the leading '#'; on an alias ending in ":"+homeserver, it is exactly the text between them |
| Naming.ExtractLocalpart | app/utils.py:40-45 | requires '#' or '@' first, and dispatches to the alias or mxid variant by it |
| Naming.IsValidEmailMxid | app/utils.py:79-83 | false when the localpart lacks "_at_"; otherwise true iff the desanitized localpart is a valid address |
| Naming.MxidLocalpart | app/utils.py:35-38 | the localpart of a generated id is the prefix followed by the name |
| Naming.AliasLocalpart | app/utils.py:30-33 | the localpart of a generated alias is the prefix followed by the name |
| Naming.ExtractEmailGenerateMxid | app/utils.py:73-76 | `extract_email(generate_mxid(e)) == e` for every address the codec round-trips |
| Naming.ExtractAliasThreadGenerateAlias | app/utils.py:22-28 | `extract_alias_thread(generate_alias(n)) == n` for every name |
| Models.FromMimeType | app/models.py:19-28 | image, video and audio prefixes are tested in that order; anything else is unknown |
| Models.FromMimeTypeOfPrefix | app/models.py:19-28 | every MIME type starting with a kind's prefix is classified as that kind |
| Models.MainType | app/models.py:47-49 | the text before the first '/', or the whole type without one |
| Models.SubType | app/models.py:51-53 | fails without a '/'; otherwise the text after the first '/' |
| Models.MainSubType | app/models.py:47-53 | for a type containing '/', main + "/" + sub rebuilds it |
| Models.WithSubject | app/models.py:63-66 | only the subject changes; body, html body and attachments stay |
| Models.WithSubjectOverrides | app/models.py:63-66 | setting the subject twice keeps only the later subject |
| Models.ExpiryMonotone | app/models.py:98-99 | an expired token stays expired later, and a token is not expired at its expiry instant |
| Models.DefaultUser | app/models.py:102-113 | a new user is logged out, holds no token and no address, and has no watermark |
| Models.Validate | app/models.py:115-119 | a missing address is filled from the token; any other field is left as it is |
| Models.ValidateIdempotent | app/models.py:115-119 | running the validator twice is running it once |
| Models.Narrow | app/models.py:121-124 | a logged-out or waiting user is returned as is; a logged-in one fails exactly when it has no token, and otherwise is the validated `LoggedInUser`; a result is a `LoggedInUser` iff its state is logged_in |
| Models.LoggedInWith | app/models.py:126-132 | state logged_in with the given token; the address is the override, or else the token's address |
| Models.LoggedOutOf | app/models.py:140-145 | token and address cleared, state logged_out; matrix id, name and watermark kept |
| Models.NarrowTransitions | app/models.py:121-145 | narrowing accepts both transition results unchanged, and a logged-out result is no `LoggedInUser` |
| Models.LogoutLoginRestores | app/models.py:126-145 | logging out, then in again with the same token, restores a user whose address came from that token |
| Store.KvGet | app/db.py:33-34 | present iff the key is set, with the stored value |
| Store.KvGetSet | app/db.py:33-37 | after a set, the key reads back the value and every other key is unaffected |
| Store.KvLatestSetWins | tests/test_db.py:5-10 | an unset key reads None; after two sets, the later value wins |
| Store.KeysDisjoint | app/db.py:81-100 | user keys, event keys and the "all" key never collide |
| Store.AllUserIds | app/db.py:99-100 | an absent index reads as empty; a malformed one is an error |
| Store.GetUser | app/db.py:80-83 | an unknown id gives a fresh logged-out user; a stored one is validated and narrowed, so it is a `LoggedInUser` iff logged_in |
| Store.Upsert | app/db.py:85-91 | the record is replaced wholesale; no other user record or event marker changes |
| Store.UpsertThenGet | app/db.py:80-91 | reading back after an upsert gives the narrowed record, whatever was stored before |
| Store.UpsertIndex | app/db.py:85-91 | the index grows by the id exactly when it is new, so it stays duplicate-free and ordered |
| Store.AddEventIsolated | app/db.py:93-97 | after `add_event` the event exists; no other event, user record or index changes |
| Store.GetUsers | app/db.py:102-106 | every indexed user in index order, or the first failure |
| Store.ActiveOf | app/db.py:73-78 | the narrowed users that are `LoggedInUser`, and only those |
| Store.AllActiveUsersExact | app/db.py:73-78 | the active users are exactly the indexed users whose stored state is logged_in |
| Appservice.ExtractBotName | app/nio_client.py:101-104 | requires one of our bots; on an id with the server suffix, generating from the name gives the id back |
| Appservice.ExtractAliasName | app/nio_client.py:106-109 | requires one of our aliases; on one with the server suffix, generating from the name gives it back |
| Appservice.ExtractBotNameGenerate | app/nio_client.py:98-104 | `extract_bot_name(generate_bot_mxid(n)) == n` |
| Appservice.ExtractAliasNameGenerate | app/nio_client.py:106-119 | `extract_alias_name(generate_room_alias(n)) == n` |
| Appservice.ParseMediaUrl | app/nio_client.py:111-116 | succeeds iff the url starts with "mxc://", contains a later '/' and no newline; the id is after the last '/' |
| Appservice.ParseMediaUrlRoundTrip | app/nio_client.py:111-116 | an mxc url built from a server and a slash-free id parses back to them |
| Appservice.BuildContent | app/nio_client.py:242-255 | `body` and `msgtype` always win over info; `format`/`formatted_body` are set from html when present |
| Appservice.BuildContentKeepsInfo | app/nio_client.py:250-255 | every other info key is kept, and no other key is added |
| Appservice.Settle | app/nio_client.py:278-280 | an accepted send gives its event id; any other rejection is a request failure |
| Appservice.StepAsWritten | app/nio_client.py:259-276 | one step as written: retry without html; without html, a body over 1000 fails the assertion and a shorter one is resent shortened |
| Appservice.SendAsWritten | app/nio_client.py:233-280 | the first request carries the built content; at most `fuel` requests; a delivery reports the event id the server gave the last request |
| Appservice.SendDropsHtmlOnce | app/nio_client.py:259-264 | on a too-large answer with html, the one retry has the same body and no html |
| Appservice.SendAsWrittenLongBodyFails | app/nio_client.py:272-276 | a too-large body over 1000 characters trips the assertion before any trimming |
| Appservice.SendAsWrittenShortBodyLoops | app/nio_client.py:272-276 | a short body that the shortener leaves unchanged and the server keeps rejecting is resent, the same each time, for as long as the fuel lasts |
| Appservice.StepCorrected | app/nio_client.py:259-276 | the intended step: trim a long body, give up on a short one |
| Appservice.Send | app/nio_client.py:233-280 | corrected send: one to three requests, always ending; every retry's body is the original or at most 1000 characters, and carries html only if the caller's info did |
| Appservice.SendTrimsLongBody | app/nio_client.py:272-276 | where the version as written fails on a long body, the corrected one delivers it trimmed |
| Appservice.SetRoomPowerLevels | app/nio_client.py:179-185 | the given levels overwrite their keys; every other user keeps its level |
| Appservice.GetRoomPowerLevels | app/nio_client.py:187-194 | exactly the joined members, each at its explicit level or `users_default` |
| Appservice.GetAfterSet | app/nio_client.py:179-194 | after a merge, a member reads its new level if given, else its old one |
| Appservice.OldEvents | app/nio_client.py:318-391 | only good events of the fetched pages, none of them the boundary event; a result with a visible boundary means the boundary was found in the pages |
| Appservice.ScanNewest | app/nio_client.py:365-377 | the events passed over are exactly the page's events before the first boundary event (all of them when it is absent), none is the boundary, and the collected events are the good ones among them |
| Appservice.ScanPage | app/nio_client.py:365-379 | one page scanned newest first, collecting good events, stopping at the boundary |
| Appservice.VisitPage | app/nio_client.py:357-380 | one fetched page extends the events seen so far to the next page's prefix of the stream, or locates the first boundary in the whole stream |
| Appservice.WalkPages | app/nio_client.py:339-380 | the page loop sees the whole stream when no boundary appears, and otherwise stops exactly at the stream's first boundary event, with the good events before it collected |
| Appservice.GetOldEvents | app/nio_client.py:318-391 | the page walk computes exactly `OldEvents` |
| Mail.Recipients | app/gmail.py:44-45 | the first `len(to)` recipients are `to` and the rest are `cc`, in order |
| Mail.WithoutRecipient | app/gmail.py:47-52 | requires a non-sender; every occurrence leaves `to` and `cc`, all else is kept with its multiplicity |
| Mail.RecipientsWithout | app/gmail.py:44-52 | the recipients afterwards are the old ones without the address, in order |
| Mail.NotFromSelf | app/gmail.py:100-114 | no mail from the account itself, and every other mail |
| Mail.NotFromSelfKeepsOthers | app/gmail.py:100-114 | mail from others passes unchanged |
| Mail.SortedUnique | app/gmail.py:309-310 | `sorted(set(ids))`: strictly ascending with the same elements |
| Mail.SelectNewIds | app/gmail.py:300-310 | strictly ascending, duplicate-free, listed, and after the watermark when there is one |
| Mail.AscendingUnique | app/gmail.py:309-310 | two ascending sequences with the same elements are equal, so the selection is determined |
| Mail.Escape | app/gmail.py:161-162 | `html.escape`: no '<', '>', '"' or ''' survives, and the text never gets shorter |
| Mail.UnescapeEscape | app/gmail.py:161-162 | escaping loses nothing: unescaping gives the text back |
| Mail.ParseMsgBody | app/gmail.py:153-175 | the four-way case split: nothing gives an empty div; plain only escapes; html only extracts text; both take the first of each |
| Mail.PlainOnlyHtmlShowsBody | app/gmail.py:160-162 | for a plain-only mail, the html shows exactly the plain body |
| Mail.ParseAddress | app/gmail.py:180-187 | a string is itself; `[a]` gives a; a longer list gives its second part; an empty list fails |
| Mail.ParseAddresses | app/gmail.py:189-191 | every field parsed, or failure exactly when some field fails |
| Mail.KeptAttachments | app/gmail.py:193-205 | an attachment is dropped iff it is inline, its bare content id is not in the html, and its image marker is not in the body |
| Mail.NonInlineKept | app/gmail.py:196-200 | attachments that are not inline are never dropped |
| Mail.ReplySubject | app/gmail.py:127-132 | "Re: " is added iff it is not already there |
| Mail.ReplySubjectIdempotent | app/gmail.py:127-132 | applying the rule twice is applying it once |
| Mail.ReplyContent | app/gmail.py:123-132 | requires no subject; the subject becomes the thread's subject under the "Re: " rule, and the body and attachments are kept |
| Mail.ReplyToThread | app/gmail.py:123-138 | fails exactly when the thread data lacks the subject, References or In-Reply-To key, naming the first missing one; otherwise the reply content has the "Re: " subject and the headers carry the thread's References and In-Reply-To and the joined to and cc |
| Mail.ReplyKeepsReplySubject | app/gmail.py:127-132 | with all keys present a reply is built; a subject that starts with "Re: " is kept, and the reply's subject is a fixed point of the rule |
| Mail.ScannedThreadReplies | app/gmail.py:123-283 | on the data read from a thread's first message, a reply is built iff that message has a subject header and a Message-ID header |
| Mail.LastHeader | app/gmail.py:277-282 | the value of the last header with the name, compared lower-cased |
| Mail.ScanHeaders | app/gmail.py:268-283 | subject is the last subject header; In-Reply-To and References are both the last Message-ID |
| Mail.FromHeader | app/gmail.py:261-264 | the address alone without a name; with one, exactly the name followed by `<address>` |
| Mail.FromHeaderAddress | app/gmail.py:261-264 | the address can be read back from the from header |
| Mail.BuildHeaders | app/gmail.py:240-266 | to and cc joined with ", ", from and subject set; the thread headers only on a reply |
| Mail.JoinCommaSpace | app/gmail.py:259-260 | joining with ", " is joining with "," after a space before each later element |
| Mail.ParseAddressHeader | app/gmail.py:259-260 | the reading side of the ", " join written there (the code only writes it): split at ',' and strip each piece; `AddressHeaderRoundTrip` uses it to show the join loses nothing |
| Mail.AddressHeaderRoundTrip | app/gmail.py:259-260 | reading a `to`/`cc` header back gives the address list |
| Mail.MissingScopes | app/gmail.py:364-368 | exactly the required scopes absent from the space-separated grant |
| Mail.GetAccessToken | app/gmail.py:352-372 | a token iff the exchange worked and no scope is missing; a missing scope reports exactly the missing ones |
| Mail.FullGrantPasses | app/gmail.py:364-370 | a grant listing exactly the required scopes passes |
| Bridge.BotMxidOf | app/bridge.py:480-481 | the account of an address is one of our bots |
| Bridge.BotMxidInjective | app/bridge.py:480-481 | distinct round-tripping addresses have distinct accounts |
| Bridge.SanitizeDesanitize | app/bridge.py:483-485 | sanitizing a desanitized name gives the name back |
| Bridge.BotEmailOf | app/bridge.py:483-485 | fails iff the name has no placeholder; on an id with the server suffix and no '@' in the name, re-encoding gives the id back |
| Bridge.BotEmailRoundTrip | app/bridge.py:480-485 | `_extract_bot_email(_generate_bot_mxid(e)) == e` |
| Bridge.ThreadRoomAlias | app/bridge.py:471-474 | thread id + "." + sanitized owner address, as one of our aliases |
| Bridge.AliasThread | app/bridge.py:476-478 | the alias name up to its first '.' |
| Bridge.AliasThreadRoundTrip | app/bridge.py:471-478 | a thread id without '.' comes back from its alias |
| Bridge.OurAliases | app/bridge.py:200-201 | holds only our aliases; each of our aliases occurs in it exactly as often as in the room's list, so the count the caller checks is the count in the room |
| Bridge.OurAliasesAppend | app/bridge.py:200-201 | the comprehension keeps the room's order: the aliases of a concatenation are those of each part, concatenated |
| Bridge.ThreadOfRoom | app/bridge.py:199-209 | no alias of ours gives None, one gives its thread, more trips the assertion |
| Bridge.ThreadOfRoomRoundTrip | app/bridge.py:199-209 | a room whose only alias of ours is a thread's alias reads back that thread |
| Bridge.AssignLevel | app/bridge.py:488-489 | one dict comprehension merged in: every kept address's account at the level, other keys unchanged |
| Bridge.BotPowerLevels | app/bridge.py:487-490 | keys are the accounts of cc, to and the sender, except the owner's; to and sender at 0 override cc at −1 |
| Bridge.BotPowerLevelsOf | app/bridge.py:487-490 | address by address: listed and not the owner iff keyed; `to`/sender at 0, cc-only at −1 |
| Bridge.PowersKey | app/bridge.py:487-490 | every key is the account of a listed address that is not the owner's |
| Bridge.RecipientsAt | app/bridge.py:221-225 | the decoded addresses of the bots at a level; fails iff one of them does not decode |
| Bridge.RecipientsAtNone | app/bridge.py:223-225 | with no bot at a level, the list is empty |
| Bridge.OutboundAsWritten | app/bridge.py:220-225 | to at power 0 and cc at power 1, as written |
| Bridge.Outbound | app/bridge.py:220-225 | to at 0 and cc at −1, the intended read-back |
| Bridge.ReadBack | app/bridge.py:220-225 | on a room the bridge set up, the bots at a level decode to exactly the addresses written there |
| Bridge.OutboundRoundTrip | app/bridge.py:220-225 | reading back a room set up for a mail gives its to plus sender and its cc-only addresses (owner excluded) |
| Bridge.OutboundAsWrittenLosesCc | app/bridge.py:223 | as written, the cc read back from such a room is always empty |
| Bridge.CcDroppedAsWritten | app/bridge.py:223 | a concrete cc address present in the room is missing from the version as written and kept by the corrected one |
| Bridge.GuessMime | app/bridge.py:266-289 | the info type wins; without it, unknown media fails, no guess gives the kind's default type, and with a guess the result differs from the default iff the default starts with the guess's main type, in which case it is that main type |
| Bridge.GuessMimeAgreeing | app/bridge.py:281-287 | a guessed "image/png" for an image message gives just "image" |
| Bridge.ClassifyMembers | app/bridge.py:113-124 | members split into the appservice, our bots and others, and every member is counted once |
| Bridge.IsValidBotMxid | app/bridge.py:385-392 | false for a foreign id; true only for our id whose localpart desanitizes, reading the missing `try_email_desanitize` as `email_desanitize` with `None` for its raise; only a sigil-less appservice id trips the assertion |
| Bridge.BotOfAddressIsValid | app/bridge.py:385-392 | the account of any address with an '@' passes the test |
| Bridge.MessageRoute | app/bridge.py:126-146 | more than one other user is refused; no bot means a DM; otherwise a thread room that invites the appservice when it is missing |
| Bridge.RouteEvent | app/bridge.py:97-157 | a recorded event is already processed; only the appservice's own invite can trip an assertion |
| Bridge.Ingest | app/bridge.py:89-158 | a known event changes nothing; completed work records it, except the refusal's early return; a raise records nothing |
| Bridge.RecordedEventIgnored | app/bridge.py:97-158 | once recorded, a second delivery routes to already-processed and changes nothing |
| Bridge.UnrecordedEventRetried | app/bridge.py:126-158 | a refused or failed event is not recorded, so a redelivery is handled again |
| Bridge.CommandArg | app/bridge.py:300-312 | `re.match(word + " (.*)")`: matches iff the word and a space start the message; the argument is what follows, up to the end of the message or up to just before the first newline, and holds no newline |
| Bridge.LogoutUser | app/bridge.py:356-362 | requires a logged-in user with a running client; ends logged out with no client, so a second call fails |
| Bridge.DmStep | app/bridge.py:291-354 | the matrix id stays, also in a failure's session; the auth state moves only along the machine's edges; the basic commands leave it and the client alone; the only failures are the restart without a token, the running client at login, and an unchanged session that cannot log out |
| Bridge.DmStatus | app/bridge.py:296-299 | "status" reports the user without the token and changes nothing |
| Bridge.DmNameSet | app/bridge.py:301-404 | "name x" stores x as the display name and keeps everything else; it fails with the name already stored exactly when a client runs without a token |
| Bridge.DmEmailSet | app/bridge.py:308-404 | "email x" stores x as the address in the same way |
| Bridge.DmTokenAccepted | app/bridge.py:321-345 | an accepted token logs the user in with it; with a client already running, the login is stored and then the assertion fails |
| Bridge.DmAuthTransitions | app/bridge.py:314-354 | logged_out to waiting iff "start"; waiting to logged_in iff the exchange succeeds; logged_in to logged_out iff "logout" |
| Bridge.DefaultCoherent | app/models.py:102-113 | a new user without a client satisfies the session invariant |
| Bridge.DmStepCoherent | app/bridge.py:291-362 | from a coherent session no message trips an assertion, and the session stays coherent |
| Bridge.HandledRun | app/bridge.py:175-188 | the mails handled before the loop stops |
| Bridge.Sync | app/bridge.py:167-193 | the watermark is the last handled mail (unchanged if none); the refreshed token is stored only when no error propagated; nothing else changes; coherence is kept |
| Bridge.AfterSync | app/bridge.py:160-165 | a token-expiry error logs a coherent running session out; any other ending keeps the session the sync left |
| Legacy.FirstIndexOfId | app/event_handler.py:441-442 | `list.index`: the first position holding the id, or absent iff no event has it |
| Legacy.MissedMsgEvents | app/event_handler.py:425-449 | nothing when the invite or join is absent; otherwise exactly the messages strictly between their first occurrences, nothing when the join comes first |
| Legacy.MessagesBetween | app/event_handler.py:444-447 | the messages of `events[i+1:j]`, empty when j ≤ i |
| Legacy.MissedWindow | app/event_handler.py:441-449 | on pre, invite, mid, join, post, the window is the messages of mid, in order |
| Legacy.ReplayGuard | app/event_handler.py:91-102 | only a bot's join is considered; a replay names the join's `replaces_state` |
| Legacy.Replayed | app/event_handler.py:91-118 | the replayed events are all messages |
| Legacy.ReplayOnlyAfterHumanInvite | app/event_handler.py:91-102 | a replay needs a bot join with `replaces_state` whose inviter is neither the appservice nor a bot |
| Legacy.EachHumanInvitedBotReplays | app/event_handler.py:99-106 | a human inviting two bots makes each of them replay |
| Legacy.LegacyMessageRoute | app/event_handler.py:202-220 | our own messages are dropped; a room with a bot is a mail room; the login needs no media and exactly two members |
| Legacy.LoginRoomRoutesAgree | app/event_handler.py:202-220 | both handlers send a text from the one human beside the appservice to the login conversation |
| Legacy.CrowdedThreadRoomRoutesDiffer | app/event_handler.py:211-214 | with a bot and two humans, the older handler mails and the bridge refuses |
| Legacy.SliceFrom | app/event_handler.py:239-246 | Python's clamping `msg[n:]` |
| Legacy.LegacyAuthStep | app/event_handler.py:222-288 | only "logout" from a non-`LoggedInUser` in state logged_in fails; the matrix id stays; the state moves along the machine's edges; any "name…" sets the name from the sixth character, and any other "email…" sets the address from the seventh |
| Legacy.LegacyAuthAgrees | app/event_handler.py:255-288 | on a normalised message neither handler reads as a command, both machines reach the same record with the same answer |
| Legacy.NamePrefixDiffers | app/event_handler.py:238-243 | "namesake" renames a logged-out user to "ake", where the bridge only repeats the instructions |
| Legacy.LegacyPowerMap | app/event_handler.py:298-301 | keys are the accounts of cc and to, except the owner's; to at 0 overrides cc at −1 |
| Legacy.LegacyPowerMapOf | app/event_handler.py:298-301 | address by address: keyed iff listed and not the owner, so the unlisted sender has no entry |
| Legacy.LegacyPowerMapMatchesBridge | app/event_handler.py:298-301 | with the sender among `to`, the older map equals the bridge's |
| Legacy.LegacyPowersKey | app/event_handler.py:298-301 | every key is the account of a listed address that is not the owner's |
| Legacy.AccountEmail | app/utils.py:73-76 | decodes iff the id starts with '@' and its name desanitizes |
| Legacy.AccountEmailOfAddress | app/utils.py:47-76 | the account of a round-tripping address decodes to it |
| Legacy.EmailsAtPower | app/event_handler.py:175-179 | the addresses of the members at a level, appservice excluded; fails iff one of them does not decode |
| Legacy.LegacyRecipients | app/event_handler.py:162-179 | copied from the latest bot message carrying both lists, sender added to `to`; otherwise read from the power map |
| Legacy.RoomItemDecodes | app/event_handler.py:175-179 | each member of a mail room decodes to a listed address, at level 0 iff in `to` |
| Legacy.LegacyRecipientsRoundTrip | app/event_handler.py:172-179 | reading back a room set up for a mail gives its `to` and its cc-only addresses, owner excluded |

## Left out

- Network I/O is left out; the answers it gives are parameters. This covers:
  - Matrix requests: sync, joins, invites, registration, uploads and room state;
  - the Gmail API;
  - the OAuth HTTP calls, whose outcome is `Mail.Exchange`;
  - the permission probe of `get_old_events`;
  - `get_latest_msg`.
- `mailparser`, BeautifulSoup `get_text`/`decompose`, `textwrap.shorten` and
  `mimetypes.guess_type` are function parameters. `shorten` is constrained only by
  "at most 1000 characters", in the corrected send.
- MIME and base64 message building in `_build_email` are left out; only the headers
  are modelled.
- `app/crypto.py` (AES-GCM) is left out: a foreign cipher.
- `app/config.py` is left out; the prefix and homeserver name are a `Config` parameter.
- `app/main.py`, `app/log.py` and the rest of `app/prelude.py` are left out: HTTP
  endpoints, logging and constants. `EMAIL_SCOPES` is copied as `Mail.EmailScopes`.
- Concurrency, sleeps, backoff and the clock are left out. Times are integers, and
  "now" is a parameter.
- The throttling in `handle_token_error` is left out: clock-driven logging only.
- JSON is abstracted: a stored value is the record itself. Lower-casing and stripping
  cover ASCII only.
- `_mevent_to_content`, `m_event_to_content` and `send_attachements` are left out:
  they fetch media and call `_guess_mime`, which is modelled.
- The I/O bodies of `_accept_room_invite`, `_replay_matrix_events` and the invite
  branch of the older member handler are left out. Only the decisions they take are
  modelled.
- `_handle_mail` and `handle_gmail_message` are modelled only through their power
  maps. Room creation and message posting are I/O.
- Bridge.DmStep: the database writes of the DM machine are not threaded through
  `Store`. The session holds the record the bridge keeps in memory, which the code
  has also stored by the time an assertion fails. After `RestartWithoutToken` the old
  Gmail client has been closed but is still held; the session does not tell a closed
  client from a running one.
- Bridge.Sync: the per-mail upserts are not threaded through `Store`, for the same
  reason.
- `get_thread_from_room` of the older handler is left out. It asserts at most one alias
  and is otherwise `Bridge.ThreadOfRoom` without the split at '.'.
- Appservice.SendAsWritten: it carries a `fuel` bound, because the code as written
  recurses once more for every rejection of a short body. When `textwrap.shorten`
  leaves the body unchanged, the same content is resent until Python's recursion
  limit raises `RecursionError`. `OutOfFuel` stands for that end; the depth of the
  limit is not modelled.
- Appservice.GetOldEvents: the pages are a finite sequence. Running out of pages is the
  room dropping out of `/sync`.
- Appservice.ScanNewest: it collects one page's good events into a list of their own.
  `ScanPage` then appends that list to the running result, whereas the code appends to
  the running list event by event. The resulting list is the same.
- Bridge.IsValidBotMxid: the code calls `u.try_email_desanitize`, which app/utils.py
  does not define; it defines only `email_desanitize`, which raises when the
  placeholder is missing. The model reads the call as `email_desanitize` with `None`
  for the raise, which is what the caller's `is None` test expects. The
  `AttributeError` the missing name would raise is not modelled.
- Legacy.LegacyAuthStep: the status reply omits `matrix_id` by blanking it, and the
  replies are named rather than worded. The `name`/`email` updates restart the Gmail
  client, which is not modelled.

### Where the code and the documented behaviour differ

The model follows the code in these places.

- `set_room_power_levels` merges into the room's existing map. It does not replace the
  map.
- `_guess_mime` returns only the main type, for example "image", when the guessed type
  agrees with the message kind.
- `User.logged_in` first sets the override address and then re-validates. So with no
  override, the token's address is used.
- `_get_thread_from_room` trips its assertion on a second alias before its "pick the
  first" fallback.
- The refusal of a crowded room returns before `add_event`, so the event is not
  recorded.

## Findings

| source | as written | input that shows it | evidently intended | confidence | as-written member | corrected member |
|---|---|---|---|---|---|---|
| app/bridge.py:223 | `cc` is read from the bots at power 1, but rooms are set up with cc at −1 (app/bridge.py:488) | a mail with to = [a], cc = [b]: the room maps b's account to −1, and the reply is sent with cc = [] | cc read at power −1, so a reply keeps the cc list | high (not executed) | Bridge.CcDroppedAsWritten | Bridge.OutboundRoundTrip |
| app/nio_client.py:274 | the length assertion runs before the trim, so only bodies that need no trimming pass it | a rejected body of 1001 characters trips the assertion; a rejected body of 1000 characters that `shorten` leaves unchanged is resent unchanged until the recursion limit raises | trim a body over 1000 and resend it | high (not executed) | Appservice.SendAsWrittenLongBodyFails | Appservice.SendTrimsLongBody |
