/** The per-user orchestration of `UserBridge` (app/bridge.py): the addresses behind
    virtual accounts and thread rooms, the power-level encoding of `to`/`cc` and its
    read-back, the MIME guess for media, the event ledger of `handle_matrix_event`, the
    direct-message login machine and the watermark of the mail sync. Network calls are
    replaced by their results, passed in as parameters. */
module Bridge {
  import opened Wrappers
  import opened Strings
  import opened Seqs
  import opened Naming
  import opened Models
  import opened Store
  import opened Appservice
  import opened Mail

  /** The assertion failures and exceptions of the bridge's own code. */
  datatype Failure =
    | UndecodableBot        // `email_desanitize` finds no placeholder in a bot's name
    | MultipleThreadAliases // `_get_thread_from_room` sees two aliases of ours
    | UnknownMedia          // `_guess_mime` on a media message of no known kind
    | NotAnMxid             // `extract_mxid_localpart` on an id without '@'
    | ClientAlreadyRunning  // a login while the Gmail client runs
    | RestartWithoutToken   // `_restart_gmail_client` without a token
    | NotLoggedIn           // `_logout_user` without a logged-in user and a client
    | NoRoomForThread       // a forbidden error on a thread that has no room

  /* ---------------------------------------------------------------------------------
     Virtual accounts
     --------------------------------------------------------------------------------- */

  /** `_generate_bot_mxid`: the virtual account of an address. */
  function BotMxidOf(cfg: Config, email: string): (r: string)
    ensures IsOurBot(cfg, r)
  {
    GenerateBotMxid(cfg, Sanitize(email))
  }

  /** Two names give the same account only when they are equal. */
  lemma MxidInjective(cfg: Config, a: string, b: string)
    requires Mxid(cfg, a) == Mxid(cfg, b)
    ensures a == b
  {
    var n := 1 + |cfg.prefix|;
    assert |a| == |b|;
    assert Mxid(cfg, a)[n..n + |a|] == a;
    assert Mxid(cfg, b)[n..n + |b|] == b;
  }

  /** Addresses the codec round-trips have distinct accounts. */
  lemma BotMxidInjective(cfg: Config, a: string, b: string)
    requires Sanitizable(a) && Sanitizable(b)
    requires BotMxidOf(cfg, a) == BotMxidOf(cfg, b)
    ensures a == b
  {
    MxidInjective(cfg, Sanitize(a), Sanitize(b));
    SanitizeInjective(a, b);
  }

  /** Sanitizing an address with one '@' puts the placeholder in its place. */
  lemma SanitizeAround(a: string, b: string)
    requires '@' !in a && '@' !in b
    ensures Sanitize(a + "@" + b) == a + EmailKeyword + b
  {
    ReplaceCharAppend(a, "@" + b, '@', EmailKeyword);
    ReplaceCharAppend("@", b, '@', EmailKeyword);
    assert a + "@" + b == a + ("@" + b);
  }

  /** Re-sanitizing a desanitized name gives it back when the name had no '@'. */
  lemma SanitizeDesanitize(s: string)
    requires '@' !in s && Desanitize(s).Some?
    ensures Sanitize(Desanitize(s).value) == s
  {
    var i := LastIndexOf(s, EmailKeyword).value;
    var a, b := s[..i], s[i + |EmailKeyword|..];
    assert s == a + s[i..i + |EmailKeyword|] + b;
    assert forall x :: x in a ==> x in s;
    assert forall x :: x in b ==> x in s;
    SanitizeAround(a, b);
  }

  /** `_extract_bot_email`: the bot's name, desanitized; `email_desanitize` raises
      when the name holds no placeholder, which is `None` here. */
  function BotEmailOf(cfg: Config, mxid: string): (r: Option<string>)
    requires IsOurBot(cfg, mxid)
    ensures r.None? <==> forall j :: !OccursAt(ExtractBotName(cfg, mxid), EmailKeyword, j)
    ensures r.Some? && HasServerSuffix(cfg, mxid) && '@' !in ExtractBotName(cfg, mxid) ==>
              BotMxidOf(cfg, r.value) == mxid
  {
    var name := ExtractBotName(cfg, mxid);
    var r := Desanitize(name);
    if r.Some? && '@' !in name then
      SanitizeDesanitize(name);
      r
    else r
  }

  /** `_extract_bot_email(_generate_bot_mxid(e)) == e` for every address the codec
      round-trips. */
  lemma BotEmailRoundTrip(cfg: Config, email: string)
    requires Sanitizable(email)
    ensures BotEmailOf(cfg, BotMxidOf(cfg, email)) == Some(email)
  {
    ExtractBotNameGenerate(cfg, Sanitize(email));
    DesanitizeSanitize(email);
  }

  /* ---------------------------------------------------------------------------------
     Thread rooms
     --------------------------------------------------------------------------------- */

  /** `_generate_room_alias`: the thread id and the owner's sanitized address, joined by
      '.'; the owner must be a `LoggedInUser`. */
  function ThreadRoomAlias(cfg: Config, owner: LoggedInUser, threadId: string): (r: string)
    ensures IsOurAlias(cfg, r)
  {
    GenerateRoomAlias(cfg, threadId + "." + Sanitize(owner.emailAddress.value))
  }

  /** `s.split(c)[0]`. */
  lemma SplitHead(s: string, c: char)
    ensures SplitOn(s, c)[0] == match FirstIndexOfChar(s, c) case None => s case Some(i) => s[..i]
  {
  }

  /** `_extract_alias_thread`: the alias name up to its first '.'. */
  function AliasThread(cfg: Config, alias: string): (r: string)
    requires IsOurAlias(cfg, alias)
    ensures '.' !in r
    ensures StartsWith(ExtractAliasName(cfg, alias), r)
    ensures '.' !in ExtractAliasName(cfg, alias) ==> r == ExtractAliasName(cfg, alias)
  {
    var name := ExtractAliasName(cfg, alias);
    SplitHead(name, '.');
    SplitOn(name, '.')[0]
  }

  /** The thread id comes back out of its room alias when it has no '.' of its own. */
  lemma AliasThreadRoundTrip(cfg: Config, owner: LoggedInUser, threadId: string)
    requires '.' !in threadId
    ensures AliasThread(cfg, ThreadRoomAlias(cfg, owner, threadId)) == threadId
  {
    var name := threadId + "." + Sanitize(owner.emailAddress.value);
    ExtractAliasNameGenerate(cfg, name);
    assert name[..|threadId|] == threadId;
    FirstIndexOfCharAt(name, '.', |threadId|);
    SplitHead(name, '.');
  }

  function OurAliases(cfg: Config, aliases: seq<string>): (r: seq<string>)
    ensures forall k :: 0 <= k < |r| ==> IsOurAlias(cfg, r[k])
    ensures forall a :: a in r <==> a in aliases && IsOurAlias(cfg, a)
    ensures forall a :: multiset(r)[a] == if IsOurAlias(cfg, a) then multiset(aliases)[a] else 0
  {
    FilterMultiset(a => IsOurAlias(cfg, a), aliases);
    Filter(a => IsOurAlias(cfg, a), aliases)
  }

  /** The comprehension keeps the room's order: the aliases of a listing split in two
      are those of the first part followed by those of the second. */
  lemma OurAliasesAppend(cfg: Config, a: seq<string>, b: seq<string>)
    ensures OurAliases(cfg, a + b) == OurAliases(cfg, a) + OurAliases(cfg, b)
  {
    FilterAppend(a => IsOurAlias(cfg, a), a, b);
  }

  /** `_get_thread_from_room`: no alias of ours means no thread, one gives its thread,
      and more trips the assertion before the fallback to the first. */
  function ThreadOfRoom(cfg: Config, aliases: seq<string>): (r: Result<Option<string>, Failure>)
    ensures r.Err? <==> |OurAliases(cfg, aliases)| > 1
    ensures r == Ok(None) <==> forall a :: a in aliases ==> !IsOurAlias(cfg, a)
    ensures r.Ok? && r.value.Some? ==>
              exists a :: a in aliases && IsOurAlias(cfg, a) && r.value.value == AliasThread(cfg, a)
  {
    var ours := OurAliases(cfg, aliases);
    if |ours| > 1 then
      assert ours[0] in ours;
      Err(MultipleThreadAliases)
    else if |ours| == 1 then
      assert ours[0] in ours;
      Ok(Some(AliasThread(cfg, ours[0])))
    else
      assert forall a :: a in aliases && IsOurAlias(cfg, a) ==> a in ours;
      Ok(None)
  }

  /** A room whose only alias of ours is a thread's alias maps back to that thread. */
  lemma ThreadOfRoomRoundTrip(cfg: Config, owner: LoggedInUser, threadId: string, others: seq<string>)
    requires '.' !in threadId
    requires forall a :: a in others ==> !IsOurAlias(cfg, a)
    ensures ThreadOfRoom(cfg, [ThreadRoomAlias(cfg, owner, threadId)] + others) == Ok(Some(threadId))
  {
    var alias := ThreadRoomAlias(cfg, owner, threadId);
    var aliases := [alias] + others;
    assert aliases[1..] == others;
    assert OurAliases(cfg, others) == [];
    assert OurAliases(cfg, aliases) == [alias];
    AliasThreadRoundTrip(cfg, owner, threadId);
  }

  /* ---------------------------------------------------------------------------------
     Power levels: the encoding of `to` and `cc`
     --------------------------------------------------------------------------------- */

  const ToPower: int := 0
  const CcPower: int := -1

  /** The accounts of the addresses in `emails`, the owner's excluded. */
  function Targets(cfg: Config, emails: seq<string>, owner: Option<string>): set<string> {
    set e | e in emails && Some(e) != owner :: BotMxidOf(cfg, e)
  }

  /** One dict comprehension merged into `powers`: every kept address's account gets
      `level`, later entries overwriting earlier ones. */
  function {:induction false} AssignLevel(cfg: Config, powers: map<string, int>, emails: seq<string>,
                                          owner: Option<string>, level: int): (r: map<string, int>)
    decreases |emails|
    ensures r.Keys == powers.Keys + Targets(cfg, emails, owner)
    ensures forall k :: k in r ==> r[k] == if k in Targets(cfg, emails, owner) then level else powers[k]
  {
    if emails == [] then powers
    else
      var e := emails[0];
      var p := if Some(e) != owner then powers[BotMxidOf(cfg, e) := level] else powers;
      TargetsCons(cfg, emails, owner);
      AssignLevel(cfg, p, emails[1..], owner, level)
  }

  lemma TargetsCons(cfg: Config, emails: seq<string>, owner: Option<string>)
    requires emails != []
    ensures Targets(cfg, emails, owner) ==
            (if Some(emails[0]) != owner then {BotMxidOf(cfg, emails[0])} else {}) + Targets(cfg, emails[1..], owner)
  {
    assert forall x :: x in emails <==> x == emails[0] || x in emails[1..];
  }

  /** `_get_bot_power_levels`: `cc` at −1, then `to` and the sender at 0 overriding; the
      owner's own address gets no entry. */
  function BotPowerLevels(cfg: Config, cc: seq<string>, to: seq<string>, sender: string,
                          owner: Option<string>): (r: map<string, int>)
    ensures r.Keys == Targets(cfg, cc, owner) + Targets(cfg, to + [sender], owner)
    ensures forall k :: k in r ==> r[k] == if k in Targets(cfg, to + [sender], owner) then ToPower else CcPower
  {
    AssignLevel(cfg, AssignLevel(cfg, map[], cc, owner, CcPower), to + [sender], owner, ToPower)
  }

  /** For addresses the codec round-trips, an address's account is a target exactly
      when the address is listed and is not the owner's. */
  lemma TargetsMember(cfg: Config, emails: seq<string>, owner: Option<string>, e: string)
    requires forall x :: x in emails ==> Sanitizable(x)
    requires Sanitizable(e)
    ensures BotMxidOf(cfg, e) in Targets(cfg, emails, owner) <==> e in emails && Some(e) != owner
  {
    if BotMxidOf(cfg, e) in Targets(cfg, emails, owner) {
      var x :| x in emails && Some(x) != owner && BotMxidOf(cfg, e) == BotMxidOf(cfg, x);
      BotMxidInjective(cfg, x, e);
    }
  }

  /** The encoding address by address: `to` and the sender at 0, a `cc`-only address at
      −1, the owner absent (for addresses the codec round-trips). */
  lemma BotPowerLevelsOf(cfg: Config, cc: seq<string>, to: seq<string>, sender: string,
                         owner: Option<string>, e: string)
    requires forall x :: x in cc + to + [sender] ==> Sanitizable(x)
    requires Sanitizable(e)
    ensures var r := BotPowerLevels(cfg, cc, to, sender, owner);
            (BotMxidOf(cfg, e) in r <==> (e in cc || e in to + [sender]) && Some(e) != owner) &&
            (Some(e) != owner && e in to + [sender] ==> r[BotMxidOf(cfg, e)] == ToPower) &&
            (Some(e) != owner && e in cc && e !in to + [sender] ==> r[BotMxidOf(cfg, e)] == CcPower)
  {
    assert forall x :: x in cc ==> x in cc + to + [sender];
    assert forall x :: x in to + [sender] ==> x in cc + to + [sender];
    TargetsMember(cfg, cc, owner, e);
    TargetsMember(cfg, to + [sender], owner, e);
  }

  /** Every key of the map is the account of a listed address that is not the owner's. */
  lemma PowersKey(cfg: Config, cc: seq<string>, to: seq<string>, sender: string,
                  owner: Option<string>, b: string)
    requires b in BotPowerLevels(cfg, cc, to, sender, owner)
    ensures exists x :: x in cc + to + [sender] && Some(x) != owner && b == BotMxidOf(cfg, x)
  {
    if b in Targets(cfg, cc, owner) {
      var x :| x in cc && Some(x) != owner && b == BotMxidOf(cfg, x);
      assert x in cc + to + [sender];
    } else {
      var x :| x in to + [sender] && Some(x) != owner && b == BotMxidOf(cfg, x);
      assert x in cc + to + [sender];
    }
  }

  /* ---------------------------------------------------------------------------------
     Outbound: reading `to` and `cc` back from the room
     --------------------------------------------------------------------------------- */

  /** A bot of ours that holds exactly `power` in the room's map. */
  predicate AtPower(cfg: Config, levels: map<string, int>, power: int, b: string) {
    IsOurBot(cfg, b) && b in levels && levels[b] == power
  }

  /** The addresses behind the bots at `power`, in the order of `keys` (the members,
      which is the key order of `get_room_power_levels`). A bot whose name does not
      decode makes `_extract_bot_email` raise. */
  function {:induction false} RecipientsAt(cfg: Config, keys: seq<string>, levels: map<string, int>,
                                           power: int): (r: Result<seq<string>, Failure>)
    ensures r.Ok? <==> forall b :: b in keys && AtPower(cfg, levels, power, b) ==> BotEmailOf(cfg, b).Some?
    ensures r.Ok? ==> forall e :: e in r.value <==>
              exists b :: b in keys && AtPower(cfg, levels, power, b) && BotEmailOf(cfg, b) == Some(e)
  {
    if keys == [] then Ok([])
    else
      assert forall b :: b in keys <==> b == keys[0] || b in keys[1..];
      var rest := RecipientsAt(cfg, keys[1..], levels, power);
      if !AtPower(cfg, levels, power, keys[0]) then rest
      else match BotEmailOf(cfg, keys[0])
        case None => Err(UndecodableBot)
        case Some(e) => if rest.Err? then rest else Ok([e] + rest.value)
  }

  /** No bot at `power` reads back as no address. */
  lemma {:induction false} RecipientsAtNone(cfg: Config, keys: seq<string>, levels: map<string, int>, power: int)
    requires forall b :: b in keys ==> !AtPower(cfg, levels, power, b)
    ensures RecipientsAt(cfg, keys, levels, power) == Ok([])
  {
    if keys != [] {
      RecipientsAtNone(cfg, keys[1..], levels, power);
    }
  }

  /** The power `cc` is read at in `_handle_thread_msg`. */
  const CcPowerAsWritten: int := 1

  /** `_handle_thread_msg`'s read-back as written: `to` at power 0, `cc` at power 1. */
  function OutboundAsWritten(cfg: Config, keys: seq<string>, levels: map<string, int>): (r: Result<(seq<string>, seq<string>), Failure>)
    ensures r.Ok? <==> RecipientsAt(cfg, keys, levels, ToPower).Ok? && RecipientsAt(cfg, keys, levels, CcPowerAsWritten).Ok?
  {
    var to :- RecipientsAt(cfg, keys, levels, ToPower);
    var cc :- RecipientsAt(cfg, keys, levels, CcPowerAsWritten);
    Ok((to, cc))
  }

  /** The read-back with `cc` at −1, the power `_get_bot_power_levels` writes it with. */
  function Outbound(cfg: Config, keys: seq<string>, levels: map<string, int>): (r: Result<(seq<string>, seq<string>), Failure>)
    ensures r.Ok? <==> RecipientsAt(cfg, keys, levels, ToPower).Ok? && RecipientsAt(cfg, keys, levels, CcPower).Ok?
  {
    var to :- RecipientsAt(cfg, keys, levels, ToPower);
    var cc :- RecipientsAt(cfg, keys, levels, CcPower);
    Ok((to, cc))
  }

  /** A room set up for a mail: every participant's bot has joined, no other bot is there,
      and the room holds the roles `_get_bot_power_levels` assigned. */
  predicate RoomOfMail(cfg: Config, cc: seq<string>, to: seq<string>, sender: string, owner: Option<string>,
                       keys: seq<string>, levels: map<string, int>) {
    var powers := BotPowerLevels(cfg, cc, to, sender, owner);
    (forall b :: b in powers ==> b in keys && b in levels && levels[b] == powers[b]) &&
    (forall b :: b in keys && IsOurBot(cfg, b) ==> b in powers)
  }

  /** In such a room the bots at `power` read back as exactly the addresses with that
      role. */
  lemma ReadBack(cfg: Config, cc: seq<string>, to: seq<string>, sender: string, owner: Option<string>,
                 keys: seq<string>, levels: map<string, int>, power: int, e: string)
    requires forall x :: x in cc + to + [sender] ==> Sanitizable(x)
    requires RoomOfMail(cfg, cc, to, sender, owner, keys, levels)
    ensures RecipientsAt(cfg, keys, levels, power).Ok?
    ensures var powers := BotPowerLevels(cfg, cc, to, sender, owner);
            e in RecipientsAt(cfg, keys, levels, power).value <==>
              e in cc + to + [sender] && Some(e) != owner && BotMxidOf(cfg, e) in powers &&
              powers[BotMxidOf(cfg, e)] == power
  {
    var powers := BotPowerLevels(cfg, cc, to, sender, owner);
    forall b | b in keys && AtPower(cfg, levels, power, b)
      ensures BotEmailOf(cfg, b).Some?
    {
      PowersKey(cfg, cc, to, sender, owner, b);
      var x :| x in cc + to + [sender] && Some(x) != owner && b == BotMxidOf(cfg, x);
      BotEmailRoundTrip(cfg, x);
    }
    var r := RecipientsAt(cfg, keys, levels, power).value;
    if e in r {
      var b :| b in keys && AtPower(cfg, levels, power, b) && BotEmailOf(cfg, b) == Some(e);
      PowersKey(cfg, cc, to, sender, owner, b);
      var x :| x in cc + to + [sender] && Some(x) != owner && b == BotMxidOf(cfg, x);
      BotEmailRoundTrip(cfg, x);
    }
    if e in cc + to + [sender] && Some(e) != owner && BotMxidOf(cfg, e) in powers &&
       powers[BotMxidOf(cfg, e)] == power {
      var b := BotMxidOf(cfg, e);
      BotEmailRoundTrip(cfg, e);
      assert b in keys && AtPower(cfg, levels, power, b);
    }
  }

  /** The corrected read-back inverts the encoding: `to` comes back as the `to` addresses
      and the sender, `cc` as the addresses only in `cc`, the owner in neither. */
  lemma OutboundRoundTrip(cfg: Config, cc: seq<string>, to: seq<string>, sender: string, owner: Option<string>,
                          keys: seq<string>, levels: map<string, int>, e: string)
    requires forall x :: x in cc + to + [sender] ==> Sanitizable(x)
    requires RoomOfMail(cfg, cc, to, sender, owner, keys, levels)
    ensures Outbound(cfg, keys, levels).Ok?
    ensures e in Outbound(cfg, keys, levels).value.0 <==> e in to + [sender] && Some(e) != owner
    ensures e in Outbound(cfg, keys, levels).value.1 <==> e in cc && e !in to + [sender] && Some(e) != owner
  {
    ReadBack(cfg, cc, to, sender, owner, keys, levels, ToPower, e);
    ReadBack(cfg, cc, to, sender, owner, keys, levels, CcPower, e);
    assert e in cc + to + [sender] <==> e in cc || e in to + [sender];
    if e in cc + to + [sender] {
      BotPowerLevelsOf(cfg, cc, to, sender, owner, e);
    }
  }

  /** As written, the same room reads back the same `to` and never any `cc`: no bot holds
      power 1. */
  lemma OutboundAsWrittenLosesCc(cfg: Config, cc: seq<string>, to: seq<string>, sender: string,
                                 owner: Option<string>, keys: seq<string>, levels: map<string, int>)
    requires forall x :: x in cc + to + [sender] ==> Sanitizable(x)
    requires RoomOfMail(cfg, cc, to, sender, owner, keys, levels)
    ensures Outbound(cfg, keys, levels).Ok?
    ensures OutboundAsWritten(cfg, keys, levels) == Ok((Outbound(cfg, keys, levels).value.0, []))
  {
    ReadBack(cfg, cc, to, sender, owner, keys, levels, ToPower, sender);
    ReadBack(cfg, cc, to, sender, owner, keys, levels, CcPower, sender);
    RecipientsAtNone(cfg, keys, levels, CcPowerAsWritten);
  }

  /** The discrepancy on any mail with a `cc`-only participant: the corrected read-back
      returns it and the one as written drops it, so a reply leaves it off. */
  lemma CcDroppedAsWritten(cfg: Config, cc: seq<string>, to: seq<string>, sender: string,
                           owner: Option<string>, keys: seq<string>, levels: map<string, int>, e: string)
    requires forall x :: x in cc + to + [sender] ==> Sanitizable(x)
    requires RoomOfMail(cfg, cc, to, sender, owner, keys, levels)
    requires e in cc && e !in to + [sender] && Some(e) != owner
    ensures Outbound(cfg, keys, levels).Ok? && e in Outbound(cfg, keys, levels).value.1
    ensures OutboundAsWritten(cfg, keys, levels).Ok? && e !in OutboundAsWritten(cfg, keys, levels).value.1
  {
    OutboundRoundTrip(cfg, cc, to, sender, owner, keys, levels, e);
    OutboundAsWrittenLosesCc(cfg, cc, to, sender, owner, keys, levels);
    var w := OutboundAsWritten(cfg, keys, levels);
    assert w.Ok? && w.value.1 == [];
  }

  /* ---------------------------------------------------------------------------------
     Media
     --------------------------------------------------------------------------------- */

  datatype MediaKind = ImageMessage | AudioMessage | VideoMessage | FileMessage | OtherMedia

  /** The type `_guess_mime` falls back to for each kind of media message; an unknown
      kind raises. */
  function MimeOfKind(kind: MediaKind): Option<string> {
    match kind
    case ImageMessage => Some("image/*")
    case AudioMessage => Some("audio/*")
    case VideoMessage => Some("video/*")
    case FileMessage => Some("application/octet-stream")
    case OtherMedia => None
  }

  /** `_guess_mime`: the event's `info.mimetype` when present; otherwise the kind's
      fallback, replaced by the main type guessed from the file name when the fallback
      starts with it. `guessed` is what `mimetypes.guess_type` returns for the name. */
  function GuessMime(infoMime: Option<string>, kind: MediaKind, guessed: Option<string>): (r: Result<string, Failure>)
    ensures infoMime.Some? ==> r == Ok(infoMime.value)
    ensures infoMime.None? ==> (r.Err? <==> kind == OtherMedia)
    ensures infoMime.None? && r.Ok? ==> StartsWith(MimeOfKind(kind).value, r.value)
    ensures infoMime.None? && r.Ok? && guessed.None? ==> r.value == MimeOfKind(kind).value
    ensures infoMime.None? && r.Ok? && guessed.Some? && r.value != MimeOfKind(kind).value ==>
              StartsWith(guessed.value, r.value) && '/' !in r.value
    ensures infoMime.None? && r.Ok? && guessed.Some? ==>
              var main := SplitOn(guessed.value, '/')[0];
              (r.value != MimeOfKind(kind).value <==> StartsWith(MimeOfKind(kind).value, main)) &&
              (r.value != MimeOfKind(kind).value ==> r.value == main)
  {
    if infoMime.Some? then Ok(infoMime.value)
    else match MimeOfKind(kind)
      case None => Err(UnknownMedia)
      case Some(byKind) =>
        if guessed.None? then Ok(byKind)
        else
          var main := SplitOn(guessed.value, '/')[0];
          SplitHead(guessed.value, '/');
          if StartsWith(byKind, main) then Ok(main) else Ok(byKind)
  }

  /** The attachment type each kind of image, audio or video message stands for. */
  function KindType(kind: MediaKind): AttachmentType {
    match kind
    case ImageMessage => Image
    case AudioMessage => Audio
    case VideoMessage => Video
    case _ => Unknown
  }

  /** When the file name's guess agrees with the message kind, only the main type is
      kept, and it still classifies as that kind. */
  lemma GuessMimeAgreeing(kind: MediaKind, sub: string)
    requires kind == ImageMessage || kind == AudioMessage || kind == VideoMessage
    ensures var t := KindType(kind);
            GuessMime(None, kind, Some(KindPrefix(t) + "/" + sub)) == Ok(KindPrefix(t)) &&
            FromMimeType(KindPrefix(t)) == t
  {
    var t := KindType(kind);
    var g := KindPrefix(t) + "/" + sub;
    assert g[..5] == KindPrefix(t) && g[5] == '/';
    FirstIndexOfCharAt(g, '/', 5);
    SplitHead(g, '/');
    FromMimeTypeOfPrefix(t, "");
    assert KindPrefix(t) + "" == KindPrefix(t);
  }

  /* ---------------------------------------------------------------------------------
     Matrix events and the ledger
     --------------------------------------------------------------------------------- */

  /** `handle_matrix_event`'s split of a room's members. */
  datatype Members = Members(appservicePresent: bool, bots: seq<string>, others: seq<string>)

  /** The member loop: the appservice, our bots, and everyone else, in member order. */
  function {:induction false} ClassifyMembers(cfg: Config, appserviceId: string, members: seq<string>): (r: Members)
    ensures r.appservicePresent <==> appserviceId in members
    ensures forall m :: m in r.bots <==> m in members && m != appserviceId && IsOurBot(cfg, m)
    ensures forall m :: m in r.others <==> m in members && m != appserviceId && !IsOurBot(cfg, m)
    ensures |r.bots| + |r.others| + multiset(members)[appserviceId] == |members|
  {
    if members == [] then Members(false, [], [])
    else
      var m := members[0];
      var rest := ClassifyMembers(cfg, appserviceId, members[1..]);
      assert members == [m] + members[1..];
      assert forall x :: x in members <==> x == m || x in members[1..];
      if m == appserviceId then rest.(appservicePresent := true)
      else if IsOurBot(cfg, m) then rest.(bots := [m] + rest.bots)
      else rest.(others := [m] + rest.others)
  }

  datatype MatrixEvent =
    | MemberEvent(eventId: string, membership: string, stateKey: string)
    | TextMessage(eventId: string, body: string)
    | MediaMessage(eventId: string)
    | OtherEvent(eventId: string)

  /** Where `handle_matrix_event` sends an event. */
  datatype Route =
    | AlreadyProcessed
    | InviteAccepted(replay: bool)
    | MembershipIgnored
    | CrowdedRoomRefused
    | DmMediaRefused
    | DirectMessage
    | ThreadMessage(inviteAppservice: bool)
    | Dropped

  /** `_is_valid_bot_mxid`: one of our ids whose localpart holds the placeholder. The
      localpart extraction asserts a leading '@', which only the appservice id can lack. */
  function IsValidBotMxid(cfg: Config, appserviceId: string, mxid: string): (r: Result<bool, Failure>)
    ensures r.Err? <==> mxid == appserviceId && !IsOurBot(cfg, mxid) && (|mxid| == 0 || mxid[0] != '@')
    ensures r == Ok(true) ==> IsOurMxid(cfg, appserviceId, mxid) && Desanitize(ExtractMxidLocalpart(cfg, mxid)).Some?
    ensures !IsOurMxid(cfg, appserviceId, mxid) ==> r == Ok(false)
  {
    if !IsOurMxid(cfg, appserviceId, mxid) then Ok(false)
    else if |mxid| == 0 || mxid[0] != '@' then Err(NotAnMxid)
    else Ok(Desanitize(ExtractMxidLocalpart(cfg, mxid)).Some?)
  }

  /** Sanitizing writes the placeholder where the first '@' was. */
  lemma SanitizeKeywordAt(email: string, i: nat)
    requires i < |email| && email[i] == '@'
    ensures OccursAt(Sanitize(email), EmailKeyword, |Sanitize(email[..i])|)
  {
    var a, b := email[..i], email[i + 1..];
    assert email == a + ("@" + b);
    SanitizeSplit(a, b);
    OccursBetween(Sanitize(a), EmailKeyword, Sanitize(b));
  }

  /** Sanitizing around one '@' sanitizes both sides and puts the placeholder between. */
  lemma SanitizeSplit(a: string, b: string)
    ensures Sanitize(a + ("@" + b)) == Sanitize(a) + (EmailKeyword + Sanitize(b))
  {
    ReplaceCharAppend(a, "@" + b, '@', EmailKeyword);
    assert ReplaceChar("@" + b, '@', EmailKeyword) == EmailKeyword + Sanitize(b) by {
      assert ("@" + b)[0] == '@' && ("@" + b)[1..] == b;
    }
  }

  /** An occurrence survives putting text in front. */
  lemma OccursAfterPrefix(q: string, s: string, p: string, j: nat)
    requires OccursAt(s, p, j)
    ensures OccursAt(q + s, p, |q| + j)
  {
    assert (q + s)[|q| + j..|q| + j + |p|] == s[j..j + |p|];
  }

  /** The virtual account of any address with an '@' passes the test. */
  lemma BotOfAddressIsValid(cfg: Config, appserviceId: string, email: string)
    requires '@' in email
    ensures IsValidBotMxid(cfg, appserviceId, BotMxidOf(cfg, email)) == Ok(true)
  {
    var i := FirstIndexOfChar(email, '@').value;
    var s := Sanitize(email);
    SanitizeKeywordAt(email, i);
    OccursAfterPrefix(cfg.prefix, s, EmailKeyword, |Sanitize(email[..i])|);
    MxidLocalpart(cfg, s);
  }

  /** The routing of a text or media message by the room's members. */
  function MessageRoute(cfg: Config, appserviceId: string, members: seq<string>, media: bool): (r: Route)
    ensures var c := ClassifyMembers(cfg, appserviceId, members);
            (r == CrowdedRoomRefused <==> |c.others| > 1) &&
            (r.ThreadMessage? <==> |c.others| <= 1 && |c.bots| > 0) &&
            (r.ThreadMessage? ==> (r.inviteAppservice <==> appserviceId !in members)) &&
            (r == DirectMessage <==> |c.others| <= 1 && |c.bots| == 0 && !media)
  {
    var c := ClassifyMembers(cfg, appserviceId, members);
    if |c.others| > 1 then CrowdedRoomRefused
    else if |c.bots| == 0 then (if media then DmMediaRefused else DirectMessage)
    else ThreadMessage(!c.appservicePresent)
  }

  /** `handle_matrix_event`'s dispatch. */
  function RouteEvent(cfg: Config, appserviceId: string, kv: Kv, ev: MatrixEvent, members: seq<string>): (r: Result<Route, Failure>)
    ensures r == Ok(AlreadyProcessed) <==> EventExists(kv, ev.eventId)
    ensures r.Err? ==> ev.MemberEvent? && ev.membership == "invite" && ev.stateKey == appserviceId
  {
    if EventExists(kv, ev.eventId) then Ok(AlreadyProcessed)
    else match ev
      case MemberEvent(_, membership, stateKey) =>
        if membership != "invite" then Ok(MembershipIgnored)
        else
          var replay :- IsValidBotMxid(cfg, appserviceId, stateKey);
          Ok(InviteAccepted(replay))
      case TextMessage(_, _) => Ok(MessageRoute(cfg, appserviceId, members, false))
      case MediaMessage(_) => Ok(MessageRoute(cfg, appserviceId, members, true))
      case OtherEvent(_) => Ok(Dropped)
  }

  /** How the work of a route ended, and the store it left. */
  datatype Handling = Returned(kv: Kv) | Raised(kv: Kv)

  /** The store after `handle_matrix_event`: a known event leaves it alone; otherwise
      the event is recorded after work that returned normally, except after the early
      return of the crowded-room refusal. */
  function Ingest(kv: Kv, eventId: string, route: Route, handling: Handling): (r: Kv)
    ensures route == AlreadyProcessed ==> r == kv
    ensures route != AlreadyProcessed && route != CrowdedRoomRefused && handling.Returned? ==>
              EventExists(r, eventId)
    ensures route != AlreadyProcessed && (route == CrowdedRoomRefused || handling.Raised?) ==>
              r == handling.kv
  {
    if route == AlreadyProcessed then kv
    else if route == CrowdedRoomRefused || handling.Raised? then handling.kv
    else AddEvent(handling.kv, eventId)
  }

  /** Once recorded, an event is never handled again: delivering it a second time routes
      to `AlreadyProcessed` and leaves the store as it is. */
  lemma RecordedEventIgnored(cfg: Config, appserviceId: string, kv: Kv, ev: MatrixEvent, members: seq<string>,
                             route: Route, handling: Handling, laterMembers: seq<string>, laterHandling: Handling)
    requires RouteEvent(cfg, appserviceId, kv, ev, members) == Ok(route)
    requires route != CrowdedRoomRefused && handling.Returned?
    ensures var kv1 := Ingest(kv, ev.eventId, route, handling);
            RouteEvent(cfg, appserviceId, kv1, ev, laterMembers) == Ok(AlreadyProcessed) &&
            Ingest(kv1, ev.eventId, AlreadyProcessed, laterHandling) == kv1
  {
  }

  /** A refused or failed event is not recorded, so a redelivery handles it again. */
  lemma UnrecordedEventRetried(cfg: Config, appserviceId: string, kv: Kv, ev: MatrixEvent, members: seq<string>,
                               route: Route, handling: Handling, laterMembers: seq<string>)
    requires RouteEvent(cfg, appserviceId, kv, ev, members) == Ok(route)
    requires route != AlreadyProcessed && (route == CrowdedRoomRefused || handling.Raised?)
    requires !EventExists(handling.kv, ev.eventId)
    ensures var kv1 := Ingest(kv, ev.eventId, route, handling);
            RouteEvent(cfg, appserviceId, kv1, ev, laterMembers) != Ok(AlreadyProcessed)
  {
  }

  /* ---------------------------------------------------------------------------------
     The direct-message login machine
     --------------------------------------------------------------------------------- */

  /** The bridge's view of one user: the record, and whether a Gmail client runs. */
  datatype Session = Session(user: User, clientRunning: bool)

  /** What the bot answers in the direct-message room. */
  datatype Reply =
    | StatusReport(user: User)
    | NameSet(name: string)
    | EmailSet(address: string)
    | Instructions
    | OAuthLink
    | TokenRejected(error: TokenError)
    | LoginSucceeded(address: string)
    | LogoutSucceeded

  /** `event.body.strip().lower()`. */
  function Command(body: string): string {
    Lower(Strip(body))
  }

  /** `re.match(word + " (?P<arg>.*)", msg)`: the text after the word and a space, up to
      the end of the line (`.` does not match a newline). */
  function CommandArg(msg: string, word: string): (r: Option<string>)
    ensures r.Some? <==> StartsWith(msg, word + " ")
    ensures r.Some? ==> '\n' !in r.value && StartsWith(msg[|word| + 1..], r.value)
    ensures r.Some? && '\n' !in msg ==> word + " " + r.value == msg
    ensures r.Some? ==> var rest := msg[|word| + 1..];
              r.value == rest || (|r.value| < |rest| && rest[|r.value|] == '\n')
  {
    if !StartsWith(msg, word + " ") then None
    else
      var rest := msg[|word| + 1..];
      assert msg == word + " " + rest;
      assert forall x :: x in rest ==> x in msg;
      match FirstIndexOfChar(rest, '\n')
      case None => Some(rest)
      case Some(i) => Some(rest[..i])
  }

  /** The commands answered before the auth actions. */
  predicate IsBasicCommand(msg: string) {
    msg == "status" || CommandArg(msg, "name").Some? || CommandArg(msg, "email").Some?
  }

  /** What `_logout_user` asserts: a `LoggedInUser` and a running client. */
  predicate CanLogout(s: Session) {
    IsLoggedInUser(s.user) && s.clientRunning
  }

  /** `_logout_user`: the user is logged out and the client stopped; the second call
      fails the assertion, so logging out is not idempotent. */
  function LogoutUser(s: Session): (r: Session)
    requires CanLogout(s)
    ensures r.user.authState == LoggedOut && r.user.token.None? && r.user.emailAddress.None? && !r.clientRunning
    ensures r.user.matrixId == s.user.matrixId && r.user.emailName == s.user.emailName
    ensures r.user.lastMailId == s.user.lastMailId
    ensures !CanLogout(r)
  {
    Session(LoggedOutOf(s.user), false)
  }

  /** The edges of the auth state machine, and staying put. */
  predicate AuthEdge(a: AuthState, b: AuthState) {
    a == b ||
    (a == LoggedOut && b == WaitingForToken) ||
    (a == WaitingForToken && b == LoggedIn) ||
    (a == LoggedIn && b == LoggedOut)
  }

  /** `_handle_dm` on one message. `exchange` is the outcome of trading the stripped
      body (not lower-cased) for a token, used only while waiting for one. A failed
      assertion ends the handler after the bridge has already updated and stored the
      user, so the failure carries the session as it stands then. After the
      `RestartWithoutToken` failure the old client has been closed, but the bridge
      still holds it, so the session still counts it as running. */
  function DmStep(s: Session, body: string, exchange: Exchange): (r: Result<(Session, Reply), (Session, Failure)>)
    ensures r.Ok? ==> r.value.0.user.matrixId == s.user.matrixId
    ensures r.Err? ==> r.error.0.user.matrixId == s.user.matrixId
    ensures r.Ok? ==> AuthEdge(s.user.authState, r.value.0.user.authState)
    ensures r.Ok? && IsBasicCommand(Command(body)) ==> r.value.0.user.authState == s.user.authState
    ensures r.Ok? && IsBasicCommand(Command(body)) ==> r.value.0.clientRunning == s.clientRunning
    ensures r.Err? ==> r.error.1 == RestartWithoutToken || r.error.1 == ClientAlreadyRunning ||
                       r.error == (s, NotLoggedIn)
  {
    var msg := Command(body);
    if msg == "status" then Ok((s, StatusReport(s.user.(token := None))))
    else if CommandArg(msg, "name").Some? then
      var name := CommandArg(msg, "name").value;
      var u := s.user.(emailName := Some(name));
      if s.clientRunning && u.token.None? then Err((s.(user := u), RestartWithoutToken))
      else Ok((s.(user := u), NameSet(name)))
    else if CommandArg(msg, "email").Some? then
      var address := CommandArg(msg, "email").value;
      var u := s.user.(emailAddress := Some(address));
      if s.clientRunning && u.token.None? then Err((s.(user := u), RestartWithoutToken))
      else Ok((s.(user := u), EmailSet(address)))
    else match s.user.authState
      case LoggedOut =>
        if msg != "start" then Ok((s, Instructions))
        else Ok((s.(user := s.user.(authState := WaitingForToken)), OAuthLink))
      case WaitingForToken =>
        (match GetAccessToken(exchange)
         case Err(e) => Ok((s, TokenRejected(e)))
         case Ok(token) =>
           var after := Session(LoggedInWith(s.user, token, None), true);
           if s.clientRunning then Err((after, ClientAlreadyRunning))
           else Ok((after, LoginSucceeded(token.email))))
      case LoggedIn =>
        if msg != "logout" then Ok((s, Instructions))
        else if !CanLogout(s) then Err((s, NotLoggedIn))
        else Ok((LogoutUser(s), LogoutSucceeded))
  }

  /** "status" reports the stored user without its token and changes nothing. */
  lemma DmStatus(s: Session, body: string, exchange: Exchange)
    requires Command(body) == "status"
    ensures DmStep(s, body, exchange) == Ok((s, StatusReport(s.user.(token := None))))
  {
  }

  /** "name <x>" stores the display name, keeping the rest of the user and the client;
      a running client without a token fails the restart's assertion after the store. */
  lemma DmNameSet(s: Session, body: string, exchange: Exchange)
    requires Command(body) != "status" && CommandArg(Command(body), "name").Some?
    ensures var name := CommandArg(Command(body), "name").value;
            var after := Session(s.user.(emailName := Some(name)), s.clientRunning);
            DmStep(s, body, exchange) ==
              if s.clientRunning && s.user.token.None? then Err((after, RestartWithoutToken))
              else Ok((after, NameSet(name)))
  {
  }

  /** "email <x>" stores the address in the same way as "name" stores the name. */
  lemma DmEmailSet(s: Session, body: string, exchange: Exchange)
    requires Command(body) != "status" && CommandArg(Command(body), "email").Some?
    ensures var address := CommandArg(Command(body), "email").value;
            var after := Session(s.user.(emailAddress := Some(address)), s.clientRunning);
            DmStep(s, body, exchange) ==
              if s.clientRunning && s.user.token.None? then Err((after, RestartWithoutToken))
              else Ok((after, EmailSet(address)))
  {
    EmailIsNotName(Command(body));
  }

  /** No message is both an "email" and a "name" command. */
  lemma EmailIsNotName(msg: string)
    requires CommandArg(msg, "email").Some?
    ensures CommandArg(msg, "name").None?
  {
    assert msg[0] == 'e';
  }

  /** A token accepted while waiting logs the user in and stores it; a client that
      is already running then fails the assertion, with the login already stored. */
  lemma DmTokenAccepted(s: Session, body: string, exchange: Exchange)
    requires !IsBasicCommand(Command(body))
    requires s.user.authState == WaitingForToken && GetAccessToken(exchange).Ok?
    ensures var token := GetAccessToken(exchange).value;
            var after := Session(LoggedInWith(s.user, token, None), true);
            DmStep(s, body, exchange) ==
              if s.clientRunning then Err((after, ClientAlreadyRunning))
              else Ok((after, LoginSucceeded(token.email)))
  {
  }

  /** The auth transitions on any other message: "start" leaves logged_out for
      waiting_for_token, a successful exchange reaches logged_in and a failed one stays,
      "logout" returns to logged_out; any other text changes nothing. */
  lemma DmAuthTransitions(s: Session, body: string, exchange: Exchange)
    requires !IsBasicCommand(Command(body))
    requires DmStep(s, body, exchange).Ok?
    ensures var a, b := s.user.authState, DmStep(s, body, exchange).value.0.user.authState;
            (a == LoggedOut ==> (b == WaitingForToken <==> Command(body) == "start")) &&
            (a == WaitingForToken ==> (b == LoggedIn <==> GetAccessToken(exchange).Ok?)) &&
            (a == LoggedIn ==> (b == LoggedOut <==> Command(body) == "logout"))
    ensures var r := DmStep(s, body, exchange).value;
            s.user.authState == WaitingForToken && GetAccessToken(exchange).Ok? ==>
              r.0.user.token == Some(GetAccessToken(exchange).value) &&
              r.0.user.emailAddress == Some(GetAccessToken(exchange).value.email)
  {
  }

  /** The session invariant the bridge keeps: a client runs exactly when a token is
      held, only a logged-in user holds one, and a logged-in user is a `LoggedInUser`. */
  predicate Coherent(s: Session) {
    (s.clientRunning <==> s.user.token.Some?) &&
    (s.user.authState != LoggedIn ==> s.user.token.None?) &&
    (s.user.authState == LoggedIn ==> IsLoggedInUser(s.user))
  }

  /** A fresh user is coherent without a client. */
  lemma DefaultCoherent(matrixId: string, defaultEmailName: Option<string>)
    ensures Coherent(Session(DefaultUser(matrixId, defaultEmailName), false))
  {
  }

  /** From a coherent session no message trips an assertion, and the session stays
      coherent. */
  lemma DmStepCoherent(s: Session, body: string, exchange: Exchange)
    requires Coherent(s)
    ensures DmStep(s, body, exchange).Ok?
    ensures Coherent(DmStep(s, body, exchange).value.0)
  {
    DmStepOk(s, body, exchange);
    DmStepRunning(s, body, exchange);
    DmStepTokenless(s, body, exchange);
    DmStepLoggedIn(s, body, exchange);
  }

  lemma DmStepOk(s: Session, body: string, exchange: Exchange)
    requires Coherent(s)
    ensures DmStep(s, body, exchange).Ok?
  {
  }

  lemma DmStepRunning(s: Session, body: string, exchange: Exchange)
    requires Coherent(s)
    ensures var r := DmStep(s, body, exchange);
            r.Ok? ==> (r.value.0.clientRunning <==> r.value.0.user.token.Some?)
  {
  }

  lemma DmStepTokenless(s: Session, body: string, exchange: Exchange)
    requires Coherent(s)
    ensures var r := DmStep(s, body, exchange);
            r.Ok? && r.value.0.user.authState != LoggedIn ==> r.value.0.user.token.None?
  {
  }

  lemma DmStepLoggedIn(s: Session, body: string, exchange: Exchange)
    requires Coherent(s)
    ensures var r := DmStep(s, body, exchange);
            r.Ok? && r.value.0.user.authState == LoggedIn ==> IsLoggedInUser(r.value.0.user)
  {
    if s.user.authState == LoggedIn {
      DmStepStaysLoggedIn(s, body, exchange);
    } else {
      DmStepLogsIn(s, body, exchange);
    }
  }

  lemma DmStepStaysLoggedIn(s: Session, body: string, exchange: Exchange)
    requires Coherent(s) && s.user.authState == LoggedIn
    ensures var r := DmStep(s, body, exchange);
            r.Ok? && r.value.0.user.authState == LoggedIn ==> IsLoggedInUser(r.value.0.user)
  {
    var msg := Command(body);
    var r := DmStep(s, body, exchange);
    if msg == "status" {
      assert r == Ok((s, StatusReport(s.user.(token := None))));
    } else if CommandArg(msg, "name").Some? {
    } else if CommandArg(msg, "email").Some? {
    } else if msg != "logout" {
      assert r == Ok((s, Instructions));
    }
  }

  lemma DmStepLogsIn(s: Session, body: string, exchange: Exchange)
    requires Coherent(s) && s.user.authState != LoggedIn
    ensures var r := DmStep(s, body, exchange);
            r.Ok? && r.value.0.user.authState == LoggedIn ==> IsLoggedInUser(r.value.0.user)
  {
  }

  /* ---------------------------------------------------------------------------------
     Mail sync
     --------------------------------------------------------------------------------- */

  /** How `_handle_mail` ended on one mail: normally, with a forbidden error (and
      whether the thread's room was found), or with another exception. */
  datatype MailOutcome = Handled | Forbidden(roomFound: bool) | Failed(tokenExpired: bool)

  /** How `_sync` ended. */
  datatype SyncEnd = AllHandled | StoppedForbidden | RaisedNoRoom | RaisedError(tokenExpired: bool)

  /** The number of leading mails handled normally. */
  function HandledRun(steps: seq<(Gmail, MailOutcome)>): (n: nat)
    ensures n <= |steps|
    ensures forall k :: 0 <= k < n ==> steps[k].1 == Handled
    ensures n < |steps| ==> steps[n].1 != Handled
  {
    if steps == [] || steps[0].1 != Handled then 0 else 1 + HandledRun(steps[1..])
  }

  /** How the sync ends when the first `n` mails were handled. */
  function EndAfter(steps: seq<(Gmail, MailOutcome)>, n: nat): SyncEnd
    requires n <= |steps|
  {
    if n == |steps| then AllHandled
    else match steps[n].1
      case Handled => AllHandled
      case Forbidden(roomFound) => if roomFound then StoppedForbidden else RaisedNoRoom
      case Failed(tokenExpired) => RaisedError(tokenExpired)
  }

  /** `_sync` over the mails `get_new_mails` yields: the watermark `last_mail_id` moves to
      a mail only after it was handled; a forbidden error stops the loop, other errors
      propagate; only a loop that was not raised out of stores the refreshed token. */
  method Sync(s: Session, steps: seq<(Gmail, MailOutcome)>, refreshed: Token) returns (u: User, end: SyncEnd)
    ensures !s.clientRunning ==> u == s.user && end == AllHandled
    ensures s.clientRunning ==> end == EndAfter(steps, HandledRun(steps))
    ensures s.clientRunning ==>
              var n := HandledRun(steps);
              u.lastMailId == (if n == 0 then s.user.lastMailId else Some(steps[n - 1].0.gmailId))
    ensures s.clientRunning ==>
              u.token == (if end == AllHandled || end == StoppedForbidden then Some(refreshed) else s.user.token)
    ensures u.(lastMailId := s.user.lastMailId, token := s.user.token) == s.user
    ensures Coherent(s) ==> Coherent(Session(u, s.clientRunning))
  {
    u, end := s.user, AllHandled;
    if !s.clientRunning {
      return;
    }
    var i := 0;
    while i < |steps|
      invariant i <= HandledRun(steps)
      invariant u == s.user.(lastMailId := if i == 0 then s.user.lastMailId else Some(steps[i - 1].0.gmailId))
    {
      match steps[i].1
      case Handled =>
        u := u.(lastMailId := Some(steps[i].0.gmailId));
        i := i + 1;
      case Forbidden(roomFound) =>
        if !roomFound {
          end := RaisedNoRoom;
          return;
        }
        end := StoppedForbidden;
        break;
      case Failed(tokenExpired) =>
        end := RaisedError(tokenExpired);
        return;
    }
    u := u.(token := Some(refreshed));
  }

  /** `sync_gmails`: an expired token logs the user out; other outcomes keep the
      session the sync left. */
  function AfterSync(s: Session, u: User, end: SyncEnd): (r: Result<Session, Failure>)
    ensures end != RaisedError(true) ==> r == Ok(Session(u, s.clientRunning))
    ensures end == RaisedError(true) && Coherent(Session(u, s.clientRunning)) && s.clientRunning ==>
              r.Ok? && r.value.user.authState == LoggedOut && !r.value.clientRunning
  {
    var t := Session(u, s.clientRunning);
    if end != RaisedError(true) then Ok(t)
    else if !CanLogout(t) then Err(NotLoggedIn)
    else Ok(LogoutUser(t))
  }
}
