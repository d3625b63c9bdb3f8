/** The earlier event handler of app/event_handler.py, which `UserBridge` superseded:
    the window of messages replayed after a late join and the guard that decides on
    a replay, the routing of room messages, the login conversation, the power map of
    an incoming mail and the to/cc derivation of an outgoing one. Network calls are
    replaced by their results, passed in as parameters. */
module Legacy {
  import opened Wrappers
  import opened Strings
  import opened Seqs
  import opened Naming
  import opened Models
  import opened Mail
  import opened Bridge

  /* ---------------------------------------------------------------------------------
     The missed-message window
     --------------------------------------------------------------------------------- */

  /** The event classes the `/sync` timeline is parsed into. */
  datatype EventKind = TextEvent | MediaEvent | MembershipEvent | UnknownBadEvent

  datatype TimelineEvent = TimelineEvent(eventId: string, kind: EventKind)

  /** `isinstance(e, (RoomMessageText, RoomMessageMedia))`. */
  predicate IsMessage(e: TimelineEvent) {
    e.kind == TextEvent || e.kind == MediaEvent
  }

  /** `not isinstance(e, UnknownBadEvent)`. */
  predicate IsParsed(e: TimelineEvent) {
    e.kind != UnknownBadEvent
  }

  /** `event_ids.index(id)`, or `None` where `id not in event_ids`. */
  function FirstIndexOfId(events: seq<TimelineEvent>, id: string): (r: Option<nat>)
    ensures r.None? <==> forall k :: 0 <= k < |events| ==> events[k].eventId != id
    ensures r.Some? ==> r.value < |events| && events[r.value].eventId == id &&
                        forall k :: 0 <= k < r.value ==> events[k].eventId != id
  {
    if events == [] then None
    else if events[0].eventId == id then Some(0)
    else
      assert forall k :: 1 <= k < |events| ==> events[k] == events[1..][k - 1];
      match FirstIndexOfId(events[1..], id)
      case None => None
      case Some(i) => Some(i + 1)
  }

  /** `get_missed_msg_events` on the fetched timeline: the messages strictly between
      the first occurrences of the invite and the join, or nothing when either is not
      in the timeline. */
  function MissedMsgEvents(timeline: seq<TimelineEvent>, inviteId: string, joinId: string): (r: seq<TimelineEvent>)
    ensures forall k :: 0 <= k < |r| ==> IsMessage(r[k])
    ensures var events := Filter(IsParsed, timeline);
            FirstIndexOfId(events, inviteId).None? || FirstIndexOfId(events, joinId).None? ==> r == []
    ensures var events := Filter(IsParsed, timeline);
            var i, j := FirstIndexOfId(events, inviteId), FirstIndexOfId(events, joinId);
            i.Some? && j.Some? ==>
              (j.value <= i.value ==> r == []) &&
              forall e :: e in r <==> IsMessage(e) && exists k :: i.value < k < j.value && events[k] == e
  {
    var events := Filter(IsParsed, timeline);
    match (FirstIndexOfId(events, inviteId), FirstIndexOfId(events, joinId))
    case (Some(i), Some(j)) => MessagesBetween(events, i, j)
    case _ => []
  }

  /** `[e for e in events[i+1:j] if is a message]`; the slice is empty when `j <= i + 1`. */
  function MessagesBetween(events: seq<TimelineEvent>, i: nat, j: nat): (r: seq<TimelineEvent>)
    requires i < |events| && j < |events|
    ensures forall k :: 0 <= k < |r| ==> IsMessage(r[k])
    ensures j <= i ==> r == []
    ensures forall e :: e in r <==> IsMessage(e) && exists k :: i < k < j && events[k] == e
  {
    if j <= i + 1 then []
    else
      var window := events[i + 1..j];
      assert forall e :: e in window <==> exists k :: i < k < j && events[k] == e by {
        forall e | e in window ensures exists k :: i < k < j && events[k] == e {
          var m :| 0 <= m < |window| && window[m] == e;
          assert events[i + 1 + m] == e;
        }
        forall e | exists k :: i < k < j && events[k] == e ensures e in window {
          var k :| i < k < j && events[k] == e;
          assert window[k - i - 1] == e;
        }
      }
      Filter(IsMessage, window)
  }

  /** The position of the first event with a given id, located by the events around it. */
  lemma FirstIndexAt(events: seq<TimelineEvent>, before: seq<TimelineEvent>, e: TimelineEvent,
                     after: seq<TimelineEvent>)
    requires events == before + [e] + after
    requires forall x :: x in before ==> x.eventId != e.eventId
    ensures FirstIndexOfId(events, e.eventId) == Some(|before|)
  {
    assert events[|before|] == e;
    assert forall k :: 0 <= k < |before| ==> events[k] == before[k];
  }

  /** On a timeline laid out as `pre`, the invite, `mid`, the join and `post`, with the
      ids first occurring there, the window is exactly the messages of `mid`, in order. */
  lemma MissedWindow(pre: seq<TimelineEvent>, invite: TimelineEvent, mid: seq<TimelineEvent>,
                     join: TimelineEvent, post: seq<TimelineEvent>)
    requires forall e :: e in pre + [invite] + mid + [join] + post ==> IsParsed(e)
    requires forall e :: e in pre ==> e.eventId != invite.eventId
    requires forall e :: e in pre + [invite] + mid ==> e.eventId != join.eventId
    ensures MissedMsgEvents(pre + [invite] + mid + [join] + post, invite.eventId, join.eventId) ==
            Filter(IsMessage, mid)
  {
    var t := pre + [invite] + mid + [join] + post;
    assert forall k :: 0 <= k < |t| ==> IsParsed(t[k]) by {
      forall k | 0 <= k < |t| ensures IsParsed(t[k]) {
        assert t[k] in t;
      }
    }
    FilterAll(IsParsed, t);
    var a := pre + [invite] + mid;
    Regroup(pre, [invite], mid, [join], post);
    FirstIndexAt(t, pre, invite, mid + [join] + post);
    FirstIndexAt(t, a, join, post);
    MissedAt(t, invite.eventId, join.eventId, |pre|, |a|);
    SliceMiddle(pre + [invite], mid, [join] + post);
  }

  /** With every event parsed and both ids located, the window is the slice between them. */
  lemma MissedAt(timeline: seq<TimelineEvent>, inviteId: string, joinId: string, i: nat, j: nat)
    requires Filter(IsParsed, timeline) == timeline
    requires FirstIndexOfId(timeline, inviteId) == Some(i) && FirstIndexOfId(timeline, joinId) == Some(j)
    requires i < j
    ensures MissedMsgEvents(timeline, inviteId, joinId) == Filter(IsMessage, timeline[i + 1..j])
  {
    MessagesBetweenWindow(timeline, i, j);
  }

  /** `MessagesBetween` is the message filter of the slice strictly between two positions. */
  lemma MessagesBetweenWindow(events: seq<TimelineEvent>, i: nat, j: nat)
    requires i < j < |events|
    ensures MessagesBetween(events, i, j) == Filter(IsMessage, events[i + 1..j])
  {
    if j == i + 1 {
      assert events[i + 1..j] == [];
    }
  }

  /* ---------------------------------------------------------------------------------
     The join-replay guard
     --------------------------------------------------------------------------------- */

  /** What `m_handle_room_member_event` does with a membership event, before invites. */
  datatype JoinReplay =
    | NotABotJoin
    | JoinedWithoutInvite
    | InvitedByBridge
    | Replay(inviteId: string)

  /** The replay guard. `replacesState` is the join's `unsigned.replaces_state` and
      `inviter` the sender of the invite event it names, fetched from the server. */
  function ReplayGuard(cfg: Config, appserviceId: string, membership: string, sender: string,
                       replacesState: Option<string>, inviter: string): (r: JoinReplay)
    ensures r.Replay? ==> replacesState == Some(r.inviteId)
    ensures r == NotABotJoin <==> membership != "join" || !IsBotMxid(cfg, sender)
  {
    if membership != "join" || !IsBotMxid(cfg, sender) then NotABotJoin
    else if replacesState.None? then JoinedWithoutInvite
    else if inviter == appserviceId || IsBotMxid(cfg, inviter) then InvitedByBridge
    else Replay(replacesState.value)
  }

  /** The messages the handler replays for a membership event. */
  function Replayed(cfg: Config, appserviceId: string, membership: string, sender: string,
                    replacesState: Option<string>, inviter: string, joinId: string,
                    timeline: seq<TimelineEvent>): (r: seq<TimelineEvent>)
    ensures forall k :: 0 <= k < |r| ==> IsMessage(r[k])
  {
    match ReplayGuard(cfg, appserviceId, membership, sender, replacesState, inviter)
    case Replay(inviteId) => MissedMsgEvents(timeline, inviteId, joinId)
    case _ => []
  }

  /** Nothing is replayed unless one of our bots joined through an invite that a human
      sent: a join without `replaces_state`, or one invited by the appservice or another
      bot, replays nothing, whatever the timeline holds. */
  lemma ReplayOnlyAfterHumanInvite(cfg: Config, appserviceId: string, membership: string, sender: string,
                                   replacesState: Option<string>, inviter: string, joinId: string,
                                   timeline: seq<TimelineEvent>)
    requires Replayed(cfg, appserviceId, membership, sender, replacesState, inviter, joinId, timeline) != []
    ensures membership == "join" && IsBotMxid(cfg, sender)
    ensures replacesState.Some?
    ensures inviter != appserviceId && !IsBotMxid(cfg, inviter)
  {
  }

  /** The guard looks at the inviter only: a human inviting two bots in turn makes each
      of them replay its window, even when the first bot already saw the messages. */
  lemma EachHumanInvitedBotReplays(cfg: Config, appserviceId: string, bot1: string, bot2: string,
                                   invite1: string, invite2: string, human: string)
    requires IsBotMxid(cfg, bot1) && IsBotMxid(cfg, bot2)
    requires human != appserviceId && !IsBotMxid(cfg, human)
    ensures ReplayGuard(cfg, appserviceId, "join", bot1, Some(invite1), human) == Replay(invite1)
    ensures ReplayGuard(cfg, appserviceId, "join", bot2, Some(invite2), human) == Replay(invite2)
  {
  }

  /* ---------------------------------------------------------------------------------
     Routing a room message
     --------------------------------------------------------------------------------- */

  /** Where `m_handle_room_message_event` sends a message. */
  datatype LegacyRoute =
    | OwnMessage
    | MailRoom
    | InvalidAction
    | SecurityRefusal
    | AuthMessage

  /** The routing by sender and members: our own messages are dropped, a room with a
      bot is a mail room, and the login conversation needs exactly two members. */
  function LegacyMessageRoute(cfg: Config, appserviceId: string, sender: string, members: seq<string>,
                              media: bool): (r: LegacyRoute)
    ensures r == OwnMessage <==> sender == appserviceId || IsBotMxid(cfg, sender)
    ensures r == MailRoom <==> r != OwnMessage && exists m :: m in members && IsBotMxid(cfg, m)
    ensures r == AuthMessage <==>
              r != OwnMessage && (forall m :: m in members ==> !IsBotMxid(cfg, m)) && !media && |members| == 2
  {
    if sender == appserviceId || IsBotMxid(cfg, sender) then OwnMessage
    else if Filter(m => IsBotMxid(cfg, m), members) != [] then MailRoom
    else if media then InvalidAction
    else if |members| != 2 then SecurityRefusal
    else AuthMessage
  }

  /** The two handlers agree on a login room holding the appservice and one human. */
  lemma LoginRoomRoutesAgree(cfg: Config, appserviceId: string, human: string)
    requires human != appserviceId && !IsBotMxid(cfg, human) && !IsBotMxid(cfg, appserviceId)
    ensures LegacyMessageRoute(cfg, appserviceId, human, [appserviceId, human], false) == AuthMessage
    ensures MessageRoute(cfg, appserviceId, [appserviceId, human], false) == DirectMessage
  {
    assert [appserviceId, human][1..] == [human] && [human][1..] == [];
    assert ClassifyMembers(cfg, appserviceId, []) == Members(false, [], []);
    assert ClassifyMembers(cfg, appserviceId, [human]) == Members(false, [], [human]);
    assert ClassifyMembers(cfg, appserviceId, [appserviceId, human]) == Members(true, [], [human]);
  }

  /** They disagree on a thread room with two humans: the older handler mails, the
      bridge refuses. */
  lemma CrowdedThreadRoomRoutesDiffer(cfg: Config, appserviceId: string, bot: string, alice: string, bob: string)
    requires IsBotMxid(cfg, bot) && bot != appserviceId
    requires alice != bob
    requires alice != appserviceId && !IsBotMxid(cfg, alice) && bob != appserviceId && !IsBotMxid(cfg, bob)
    ensures LegacyMessageRoute(cfg, appserviceId, alice, [bot, alice, bob], false) == MailRoom
    ensures MessageRoute(cfg, appserviceId, [bot, alice, bob], false) == CrowdedRoomRefused
  {
    CrowdedLegacyMails(cfg, appserviceId, bot, alice, bob);
    CrowdedBridgeRefuses(cfg, appserviceId, bot, alice, bob);
  }

  lemma CrowdedLegacyMails(cfg: Config, appserviceId: string, bot: string, alice: string, bob: string)
    requires IsBotMxid(cfg, bot)
    requires alice != appserviceId && !IsBotMxid(cfg, alice)
    ensures LegacyMessageRoute(cfg, appserviceId, alice, [bot, alice, bob], false) == MailRoom
  {
    assert bot in [bot, alice, bob];
  }

  lemma CrowdedBridgeRefuses(cfg: Config, appserviceId: string, bot: string, alice: string, bob: string)
    requires IsBotMxid(cfg, bot) && bot != appserviceId
    requires alice != appserviceId && !IsBotMxid(cfg, alice) && bob != appserviceId && !IsBotMxid(cfg, bob)
    ensures MessageRoute(cfg, appserviceId, [bot, alice, bob], false) == CrowdedRoomRefused
  {
    assert [bot, alice, bob][1..] == [alice, bob] && [alice, bob][1..] == [bob] && [bob][1..] == [];
    assert ClassifyMembers(cfg, appserviceId, []) == Members(false, [], []);
    assert ClassifyMembers(cfg, appserviceId, [bob]) == Members(false, [], [bob]);
    assert ClassifyMembers(cfg, appserviceId, [alice, bob]) == Members(false, [], [alice, bob]);
    assert ClassifyMembers(cfg, appserviceId, [bot, alice, bob]) == Members(false, [bot], [alice, bob]);
  }

  /* ---------------------------------------------------------------------------------
     The login conversation
     --------------------------------------------------------------------------------- */

  /** `msg[n:]`, which Python clamps to the empty string on a shorter `msg`. */
  function SliceFrom(msg: string, n: nat): (r: string)
    ensures |msg| >= n ==> msg == msg[..n] + r
    ensures |msg| <= n ==> r == ""
  {
    if |msg| <= n then "" else msg[n..]
  }

  /** `m_handle_room_message_event` and `m_handle_auth_msg` on the raw body (neither
      stripped nor lower-cased) from a user read through the store. "help" and
      "status" are exact, "name" and "email" are plain prefixes whose argument starts
      after the length of the word and a space. `None` is no reply. */
  function LegacyAuthStep(u: User, msg: string, exchange: Exchange): (r: Result<(User, Option<Reply>), Failure>)
    ensures r.Err? <==> u.authState == LoggedIn && msg == "logout" && !IsLoggedInUser(u)
    ensures r.Ok? ==> r.value.0.matrixId == u.matrixId
    ensures r.Ok? ==> AuthEdge(u.authState, r.value.0.authState)
    ensures StartsWith(msg, "name") && msg != "help" && msg != "status" ==>
              r == Ok((u.(emailName := Some(SliceFrom(msg, 5))), None))
    ensures StartsWith(msg, "email") && !StartsWith(msg, "name") && msg != "help" && msg != "status" ==>
              r == Ok((u.(emailAddress := Some(SliceFrom(msg, 6))), None))
  {
    if msg == "help" then Ok((u, Some(Instructions)))
    else if msg == "status" then Ok((u, Some(StatusReport(u.(token := None, matrixId := "")))))
    else if StartsWith(msg, "name") then Ok((u.(emailName := Some(SliceFrom(msg, 5))), None))
    else if StartsWith(msg, "email") then Ok((u.(emailAddress := Some(SliceFrom(msg, 6))), None))
    else match u.authState
      case LoggedOut =>
        if msg != "start" then Ok((u, Some(Instructions)))
        else Ok((u.(authState := WaitingForToken), Some(OAuthLink)))
      case WaitingForToken =>
        (match GetAccessToken(exchange)
         case Err(e) => Ok((u, Some(TokenRejected(e))))
         case Ok(token) => Ok((LoggedInWith(u, token, None), Some(LoginSucceeded(token.email)))))
      case LoggedIn =>
        if msg != "logout" then Ok((u, Some(Instructions)))
        else if !IsLoggedInUser(u) then Err(NotLoggedIn)
        else Ok((LoggedOutOf(u), Some(LogoutSucceeded)))
  }

  /** A word the bridge takes as a command with an argument is a prefix the older
      handler takes as one too. */
  lemma CommandWordPrefix(msg: string, word: string)
    requires StartsWith(msg, word + " ")
    ensures StartsWith(msg, word)
  {
    assert msg[..|word|] == (word + " ")[..|word|];
  }

  /** On a message already stripped and lower-cased that neither handler takes as a
      command, the two login machines agree: same record, same answer. */
  lemma LegacyAuthAgrees(s: Session, msg: string, exchange: Exchange)
    requires Coherent(s)
    requires Command(msg) == msg
    requires msg != "help" && msg != "status" && !StartsWith(msg, "name") && !StartsWith(msg, "email")
    ensures LegacyAuthStep(s.user, msg, exchange).Ok?
    ensures DmStep(s, msg, exchange).Ok?
    ensures LegacyAuthStep(s.user, msg, exchange).value.0 == DmStep(s, msg, exchange).value.0.user
    ensures LegacyAuthStep(s.user, msg, exchange).value.1 == Some(DmStep(s, msg, exchange).value.1)
  {
    DmStepOk(s, msg, exchange);
    NoCommandArg(msg, "name");
    NoCommandArg(msg, "email");
    assert msg != "status";
  }

  /** A message the older handler does not take as `word` has no argument for the bridge. */
  lemma NoCommandArg(msg: string, word: string)
    requires !StartsWith(msg, word)
    ensures CommandArg(msg, word).None?
  {
    if StartsWith(msg, word + " ") {
      CommandWordPrefix(msg, word);
    }
  }

  /** The prefix match reads any word starting with "name" as the command: "namesake"
      renames a logged-out user's mailbox to "ake", where the bridge only repeats the
      instructions. */
  lemma NamePrefixDiffers(s: Session, exchange: Exchange)
    requires Coherent(s) && s.user.authState == LoggedOut
    ensures LegacyAuthStep(s.user, "namesake", exchange) == Ok((s.user.(emailName := Some("ake")), None))
    ensures DmStep(s, "namesake", exchange) == Ok((s, Instructions))
  {
    NamesakeCommand("namesake");
    NamesakeWords("namesake");
  }

  lemma NamesakeCommand(msg: string)
    requires msg == "namesake"
    ensures Command(msg) == msg
  {
    assert TrimStart(msg) == msg;
    assert TrimEnd(msg) == msg;
    assert Lower(msg) == msg;
  }

  lemma NamesakeWords(msg: string)
    requires msg == "namesake"
    ensures StartsWith(msg, "name") && SliceFrom(msg, 5) == "ake"
    ensures !IsBasicCommand(msg)
  {
    assert msg[..4] == "name";
    assert msg[4] != ' ';
    assert !StartsWith(msg, "name ");
    assert msg[0] != 'e';
    assert !StartsWith(msg, "email ");
  }

  /* ---------------------------------------------------------------------------------
     The power map of an incoming mail
     --------------------------------------------------------------------------------- */

  /** `handle_gmail_message`'s map: `cc` at −1, then `to` at 0 overriding, the owner's
      address excluded; the sender is not given an entry. */
  function LegacyPowerMap(cfg: Config, owner: string, cc: seq<string>, to: seq<string>): (r: map<string, int>)
    ensures r.Keys == Targets(cfg, cc, Some(owner)) + Targets(cfg, to, Some(owner))
    ensures forall k :: k in r ==> r[k] == if k in Targets(cfg, to, Some(owner)) then ToPower else CcPower
  {
    AssignLevel(cfg, AssignLevel(cfg, map[], cc, Some(owner), CcPower), to, Some(owner), ToPower)
  }

  /** Address by address: listed in `to` gives 0, listed in `cc` only gives −1, and the
      owner and every unlisted address, the sender included, have no entry. */
  lemma LegacyPowerMapOf(cfg: Config, owner: string, cc: seq<string>, to: seq<string>, e: string)
    requires forall x :: x in cc + to ==> Sanitizable(x)
    requires Sanitizable(e)
    ensures var r := LegacyPowerMap(cfg, owner, cc, to);
            (BotMxidOf(cfg, e) in r <==> (e in cc || e in to) && e != owner) &&
            (e != owner && e in to ==> r[BotMxidOf(cfg, e)] == ToPower) &&
            (e != owner && e in cc && e !in to ==> r[BotMxidOf(cfg, e)] == CcPower)
  {
    assert forall x :: x in cc ==> x in cc + to;
    assert forall x :: x in to ==> x in cc + to;
    TargetsMember(cfg, cc, Some(owner), e);
    TargetsMember(cfg, to, Some(owner), e);
  }

  /** When the sender is among the `to` addresses, the older map is the bridge's. */
  lemma LegacyPowerMapMatchesBridge(cfg: Config, owner: string, cc: seq<string>, to: seq<string>, sender: string)
    requires sender in to
    ensures LegacyPowerMap(cfg, owner, cc, to) == BotPowerLevels(cfg, cc, to, sender, Some(owner))
  {
    assert Targets(cfg, to + [sender], Some(owner)) == Targets(cfg, to, Some(owner)) by {
      assert forall x :: x in to + [sender] <==> x in to;
    }
  }

  /** Every key of the map is the account of a listed address other than the owner's. */
  lemma LegacyPowersKey(cfg: Config, owner: string, cc: seq<string>, to: seq<string>, b: string)
    requires b in LegacyPowerMap(cfg, owner, cc, to)
    ensures exists x :: x in cc + to && x != owner && b == BotMxidOf(cfg, x)
  {
    if b in Targets(cfg, cc, Some(owner)) {
      var x :| x in cc && Some(x) != Some(owner) && b == BotMxidOf(cfg, x);
      assert x in cc + to;
    } else {
      var x :| x in to && Some(x) != Some(owner) && b == BotMxidOf(cfg, x);
      assert x in cc + to;
    }
  }

  /* ---------------------------------------------------------------------------------
     The recipients of an outgoing mail
     --------------------------------------------------------------------------------- */

  /** `extract_email` as the handler calls it: the localpart extraction asserts the
      leading '@', and desanitizing raises without a placeholder. */
  function AccountEmail(cfg: Config, account: string): (r: Result<string, Failure>)
    ensures r.Ok? <==> |account| > 0 && account[0] == '@' && ExtractEmail(cfg, account).Some?
    ensures r.Ok? ==> ExtractEmail(cfg, account) == Some(r.value)
  {
    if |account| == 0 || account[0] != '@' then Err(NotAnMxid)
    else match ExtractEmail(cfg, account)
      case None => Err(UndecodableBot)
      case Some(e) => Ok(e)
  }

  /** The account of an address the codec round-trips decodes back to it. */
  lemma AccountEmailOfAddress(cfg: Config, e: string)
    requires Sanitizable(e)
    ensures AccountEmail(cfg, BotMxidOf(cfg, e)) == Ok(e)
  {
    assert BotMxidOf(cfg, e) == GenerateMxid(cfg, e);
    ExtractEmailGenerateMxid(cfg, e);
  }

  /** The addresses behind the members at `power` in the room's power map (its items in
      order), the appservice excluded; the first account that does not decode raises. */
  function {:induction false} EmailsAtPower(cfg: Config, appserviceId: string, items: seq<(string, int)>,
                                            power: int): (r: Result<seq<string>, Failure>)
    ensures r.Ok? <==> forall p :: p in items && p.1 == power && p.0 != appserviceId ==>
                         AccountEmail(cfg, p.0).Ok?
    ensures r.Ok? ==> forall e :: e in r.value <==>
              exists p :: p in items && p.1 == power && p.0 != appserviceId && AccountEmail(cfg, p.0) == Ok(e)
  {
    if items == [] then Ok([])
    else
      assert forall p :: p in items <==> p == items[0] || p in items[1..];
      var (u, level) := items[0];
      if level != power || u == appserviceId then EmailsAtPower(cfg, appserviceId, items[1..], power)
      else
        var e :- AccountEmail(cfg, u);
        var rest :- EmailsAtPower(cfg, appserviceId, items[1..], power);
        Ok([e] + rest)
  }

  /** The latest message of a bot in the room, with the `to` and `cc` fields of its
      content when present. */
  datatype BotMessage = BotMessage(sender: string, to: Option<seq<string>>, cc: Option<seq<string>>)

  predicate CarriesRecipients(latest: Option<BotMessage>) {
    latest.Some? && latest.value.to.Some? && latest.value.cc.Some?
  }

  /** `m_send_mail`'s `to` and `cc`: copied from the latest bot message that carries
      both, with its sender added to `to`; otherwise read from the room's power map. */
  function LegacyRecipients(cfg: Config, appserviceId: string, latest: Option<BotMessage>,
                            items: seq<(string, int)>): (r: Result<(seq<string>, seq<string>), Failure>)
    ensures CarriesRecipients(latest) ==>
              (r.Ok? <==> AccountEmail(cfg, latest.value.sender).Ok?) &&
              (r.Ok? ==> r.value.0 == latest.value.to.value + [AccountEmail(cfg, latest.value.sender).value] &&
                         r.value.1 == latest.value.cc.value)
    ensures !CarriesRecipients(latest) ==>
              (r.Ok? <==> EmailsAtPower(cfg, appserviceId, items, ToPower).Ok? &&
                          EmailsAtPower(cfg, appserviceId, items, CcPower).Ok?)
    ensures !CarriesRecipients(latest) && r.Ok? ==>
              r.value == (EmailsAtPower(cfg, appserviceId, items, ToPower).value,
                          EmailsAtPower(cfg, appserviceId, items, CcPower).value)
  {
    if CarriesRecipients(latest) then
      var senderEmail :- AccountEmail(cfg, latest.value.sender);
      Ok((latest.value.to.value + [senderEmail], latest.value.cc.value))
    else
      var to :- EmailsAtPower(cfg, appserviceId, items, ToPower);
      var cc :- EmailsAtPower(cfg, appserviceId, items, CcPower);
      Ok((to, cc))
  }

  /** The items of the power map of a room that `handle_gmail_message` set up: each
      entry of `powers`, and besides those only the appservice. */
  predicate ItemsOfRoom(appserviceId: string, items: seq<(string, int)>, powers: map<string, int>) {
    (forall p :: p in items && p.0 != appserviceId ==> p.0 in powers && powers[p.0] == p.1) &&
    (forall u :: u in powers ==> (u, powers[u]) in items)
  }

  /** One member of such a room decodes to its listed address. */
  lemma RoomItemDecodes(cfg: Config, appserviceId: string, owner: string, cc: seq<string>, to: seq<string>,
                        items: seq<(string, int)>, p: (string, int))
    requires forall x :: x in cc + to ==> Sanitizable(x)
    requires ItemsOfRoom(appserviceId, items, LegacyPowerMap(cfg, owner, cc, to))
    requires p in items && p.0 != appserviceId
    ensures exists x :: x in cc + to && x != owner && AccountEmail(cfg, p.0) == Ok(x) &&
                        (p.1 == ToPower <==> x in to)
  {
    var powers := LegacyPowerMap(cfg, owner, cc, to);
    LegacyPowersKey(cfg, owner, cc, to, p.0);
    var x :| x in cc + to && x != owner && p.0 == BotMxidOf(cfg, x);
    AccountEmailOfAddress(cfg, x);
    LegacyPowerMapOf(cfg, owner, cc, to, x);
  }

  /** Reading a room set up by `handle_gmail_message` back through the power map gives
      its `to` and its `cc`-only addresses (the owner's left out), as sets; the sender,
      which the map does not record, is not recovered unless listed. */
  lemma LegacyRecipientsRoundTrip(cfg: Config, appserviceId: string, owner: string, cc: seq<string>,
                                  to: seq<string>, latest: Option<BotMessage>, items: seq<(string, int)>)
    requires forall x :: x in cc + to ==> Sanitizable(x)
    requires !IsBotMxid(cfg, appserviceId)
    requires ItemsOfRoom(appserviceId, items, LegacyPowerMap(cfg, owner, cc, to))
    requires !CarriesRecipients(latest)
    ensures LegacyRecipients(cfg, appserviceId, latest, items).Ok?
    ensures forall e :: e in LegacyRecipients(cfg, appserviceId, latest, items).value.0 <==> e in to && e != owner
    ensures forall e :: e in LegacyRecipients(cfg, appserviceId, latest, items).value.1 <==>
              e in cc && e !in to && e != owner
  {
    var powers := LegacyPowerMap(cfg, owner, cc, to);
    forall p | p in items && p.0 != appserviceId ensures AccountEmail(cfg, p.0).Ok? {
      RoomItemDecodes(cfg, appserviceId, owner, cc, to, items, p);
    }
    var toR := EmailsAtPower(cfg, appserviceId, items, ToPower).value;
    var ccR := EmailsAtPower(cfg, appserviceId, items, CcPower).value;
    forall e ensures e in toR <==> e in to && e != owner {
      if e in toR {
        var p :| p in items && p.1 == ToPower && p.0 != appserviceId && AccountEmail(cfg, p.0) == Ok(e);
        RoomItemDecodes(cfg, appserviceId, owner, cc, to, items, p);
      }
      if e in to && e != owner {
        assert e in cc + to;
        LegacyPowerMapOf(cfg, owner, cc, to, e);
        AccountEmailOfAddress(cfg, e);
        var u := BotMxidOf(cfg, e);
        assert (u, powers[u]) in items;
      }
    }
    forall e ensures e in ccR <==> e in cc && e !in to && e != owner {
      if e in ccR {
        var p :| p in items && p.1 == CcPower && p.0 != appserviceId && AccountEmail(cfg, p.0) == Ok(e);
        RoomItemDecodes(cfg, appserviceId, owner, cc, to, items, p);
      }
      if e in cc && e !in to && e != owner {
        assert e in cc + to;
        LegacyPowerMapOf(cfg, owner, cc, to, e);
        AccountEmailOfAddress(cfg, e);
        var u := BotMxidOf(cfg, e);
        assert (u, powers[u]) in items;
      }
    }
  }
}
