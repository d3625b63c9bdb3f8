/** The deterministic parts of `AppserviceClient` (app/nio_client.py): its naming
    helpers, message-content assembly with the degradation on `M_TOO_LARGE`, the
    power-level map merge and read, and the backward page walk of `get_old_events`.
    The homeserver is a parameter: a function from request content to response, or
    the sequence of `/sync` pages it would return. */
module Appservice {
  import opened Wrappers
  import opened Strings
  import opened Seqs
  import opened Naming

  /** `is_our_bot`: the same namespace test as `is_bot_mxid`. */
  predicate IsOurBot(cfg: Config, mxid: string) {
    IsBotMxid(cfg, mxid)
  }

  /** `is_our_mxid`: one of our bots or the appservice user itself. */
  predicate IsOurMxid(cfg: Config, appserviceId: string, mxid: string) {
    IsOurBot(cfg, mxid) || mxid == appserviceId
  }

  /** `is_our_alias`. */
  predicate IsOurAlias(cfg: Config, alias: string) {
    IsThreadAlias(cfg, alias)
  }

  /** `generate_bot_mxid`. */
  function GenerateBotMxid(cfg: Config, name: string): (r: string)
    ensures IsOurBot(cfg, r)
  {
    Mxid(cfg, name)
  }

  /** `generate_room_alias`. */
  function GenerateRoomAlias(cfg: Config, name: string): (r: string)
    ensures IsOurAlias(cfg, r)
  {
    GenerateAlias(cfg, name)
  }

  /** An id that ends in `:<homeserver>` with room for the sigil and the prefix. */
  predicate HasServerSuffix(cfg: Config, id: string) {
    EndsWith(id, ":" + cfg.homeserver) && |id| >= |cfg.prefix| + |cfg.homeserver| + 2
  }

  /** `extract_bot_name`: asserts the namespace, then strips sigil, server and prefix. */
  function ExtractBotName(cfg: Config, mxid: string): (r: string)
    requires IsOurBot(cfg, mxid)
    ensures HasServerSuffix(cfg, mxid) ==> GenerateBotMxid(cfg, r) == mxid
  {
    var localpart := ExtractMxidLocalpart(cfg, mxid);
    var r := RemovePrefix(localpart, cfg.prefix);
    if HasServerSuffix(cfg, mxid) then
      assert mxid == "@" + localpart + ":" + cfg.homeserver;
      assert mxid[1..1 + |cfg.prefix|] == cfg.prefix;
      assert localpart[..|cfg.prefix|] == mxid[1..1 + |cfg.prefix|];
      r
    else r
  }

  /** `extract_alias_name`: the same on an alias. */
  function ExtractAliasName(cfg: Config, alias: string): (r: string)
    requires IsOurAlias(cfg, alias)
    ensures HasServerSuffix(cfg, alias) ==> GenerateRoomAlias(cfg, r) == alias
  {
    var localpart := ExtractAliasLocalpart(cfg, alias);
    var r := RemovePrefix(localpart, cfg.prefix);
    if HasServerSuffix(cfg, alias) then
      assert alias == "#" + localpart + ":" + cfg.homeserver;
      assert alias[1..1 + |cfg.prefix|] == cfg.prefix;
      assert localpart[..|cfg.prefix|] == alias[1..1 + |cfg.prefix|];
      r
    else r
  }

  /** `extract_bot_name(generate_bot_mxid(n)) == n` for every name. */
  lemma ExtractBotNameGenerate(cfg: Config, name: string)
    ensures ExtractBotName(cfg, GenerateBotMxid(cfg, name)) == name
  {
    MxidLocalpart(cfg, name);
  }

  /** `extract_alias_name(generate_room_alias(n)) == n` for every name. */
  lemma ExtractAliasNameGenerate(cfg: Config, name: string)
    ensures ExtractAliasName(cfg, GenerateRoomAlias(cfg, name)) == name
  {
    AliasLocalpart(cfg, name);
  }

  const MediaScheme: string := "mxc://"

  /** Splitting at the last '/' leaves no '/' on the right. */
  lemma LastSlashSplit(rest: string, j: nat)
    requires LastIndexOf(rest, "/") == Some(j)
    ensures j < |rest| && rest[j] == '/'
    ensures rest == rest[..j] + "/" + rest[j + 1..] && '/' !in rest[j + 1..]
  {
    assert rest[j..j + 1] == "/";
    forall k | j < k < |rest|
      ensures rest[k] != '/'
    {
      assert !OccursAt(rest, "/", k);
      assert rest[k..k + 1] == [rest[k]];
    }
    assert rest == rest[..j] + rest[j..j + 1] + rest[j + 1..];
  }

  /** `parse_media_url`: `fullmatch("mxc://(?P<hs>.*)/(?P<id>.*)")`. The greedy `hs` group
      ends at the last '/', and `.` does not match a newline; a mismatch fails the assert. */
  function ParseMediaUrl(url: string): (r: Option<(string, string)>)
    ensures r.Some? <==> StartsWith(url, MediaScheme) && Contains(url[6..], "/") && '\n' !in url[6..]
    ensures r.Some? ==> url == MediaScheme + r.value.0 + "/" + r.value.1 && '/' !in r.value.1
  {
    if !StartsWith(url, MediaScheme) || '\n' in url[6..] then None
    else
      var rest := url[6..];
      assert url == MediaScheme + rest;
      match LastIndexOf(rest, "/")
      case None => None
      case Some(j) =>
        LastSlashSplit(rest, j);
        Some((rest[..j], rest[j + 1..]))
  }

  /** `parse_media_url("mxc://" + h + "/" + i) == (h, i)` when `i` has no '/'. */
  lemma ParseMediaUrlRoundTrip(h: string, i: string)
    requires '/' !in i && '\n' !in h && '\n' !in i
    ensures ParseMediaUrl(MediaScheme + h + "/" + i) == Some((h, i))
  {
    var url := MediaScheme + h + "/" + i;
    var rest := h + "/" + i;
    assert url[..6] == MediaScheme && url[6..] == rest;
    assert OccursAt(rest, "/", |h|) by {
      assert rest[|h|..|h| + 1] == "/";
    }
    var j := LastIndexOf(rest, "/").value;
    LastSlashSplit(rest, j);
    forall k | |h| < k < |rest|
      ensures rest[k] != '/'
    {
      assert rest[k] == i[k - |h| - 1];
    }
    assert j == |h|;
    assert rest[..j] == h && rest[j + 1..] == i;
  }

  /** Request content: string-valued, JSON values abstracted. */
  type Content = map<string, string>

  const HtmlFormat: string := "org.matrix.custom.html"

  /** `{**(info or {}), "body": body, "msgtype": "m.text", **format_info}`. */
  function BuildContent(body: string, html: Option<string>, info: Content): (r: Content)
    ensures "body" in r && r["body"] == body
    ensures "msgtype" in r && r["msgtype"] == "m.text"
    ensures html.Some? ==> "format" in r && r["format"] == HtmlFormat
    ensures html.Some? ==> "formatted_body" in r && r["formatted_body"] == html.value
    ensures html.None? ==> ("format" in r <==> "format" in info)
    ensures html.None? ==> ("formatted_body" in r <==> "formatted_body" in info)
  {
    var base := info["body" := body]["msgtype" := "m.text"];
    match html
    case None => base
    case Some(h) => base["format" := HtmlFormat]["formatted_body" := h]
  }

  /** The keys the client sets itself. */
  predicate IsReservedKey(k: string) {
    k == "body" || k == "msgtype" || k == "format" || k == "formatted_body"
  }

  /** Every other key of `info` is passed through unchanged, and nothing else is added. */
  lemma BuildContentKeepsInfo(body: string, html: Option<string>, info: Content)
    ensures forall k :: k in info && !IsReservedKey(k) ==>
              k in BuildContent(body, html, info) && BuildContent(body, html, info)[k] == info[k]
    ensures forall k :: k in BuildContent(body, html, info) ==> k in info || IsReservedKey(k)
  {
  }

  /** What the homeserver answers to a send. */
  datatype Response = Accepted(eventId: string) | Rejected(status: int, errcode: string)

  predicate IsTooLarge(resp: Response) {
    resp.Rejected? && resp.status == 413 && resp.errcode == "M_TOO_LARGE"
  }

  datatype SendOutcome =
    | Delivered(eventId: string)
    | RequestFailed(status: int, errcode: string)
    | WidthAssertion   // the `assert len(body) <= allowed_width` failed
    | OutOfFuel        // the recursion did not end within the fuel given

  const AllowedWidth: nat := 1000

  /** What `c_send_msg` does after one answer: finish with an outcome, or resend a body
      without html. */
  datatype Step = Finish(outcome: SendOutcome) | Resend(body: string)

  /** The answers that end the send whatever the version: success or another error. */
  function Settle(resp: Response): (r: SendOutcome)
    requires !IsTooLarge(resp)
    ensures r.Delivered? <==> resp.Accepted?
    ensures r.Delivered? ==> resp == Accepted(r.eventId)
    ensures r.RequestFailed? ==> resp == Rejected(r.status, r.errcode)
  {
    match resp
    case Rejected(status, code) => RequestFailed(status, code)
    case Accepted(id) => Delivered(id)
  }

  /** The step as written: drop html first; without html, assert the rejected body is at
      most the width, then resend it shortened. */
  function StepAsWritten(resp: Response, shorten: string -> string, body: string, html: Option<string>): (r: Step)
    ensures IsTooLarge(resp) && html.Some? ==> r == Resend(body)
    ensures IsTooLarge(resp) && html.None? ==>
              r == (if |body| > AllowedWidth then Finish(WidthAssertion) else Resend(shorten(body)))
    ensures !IsTooLarge(resp) ==> r.Finish? && r.outcome == Settle(resp)
  {
    if !IsTooLarge(resp) then Finish(Settle(resp))
    else if html.Some? then Resend(body)
    else if |body| > AllowedWidth then Finish(WidthAssertion)
    else Resend(shorten(body))
  }

  /** `c_send_msg` as written: returns the outcome and every content sent. The recursion
      need not end, so it is cut at `fuel` attempts. */
  function SendAsWritten(server: Content -> Response, shorten: string -> string,
                         body: string, html: Option<string>, info: Content, fuel: nat): (r: (SendOutcome, seq<Content>))
    decreases fuel
    ensures fuel > 0 ==> |r.1| >= 1 && r.1[0] == BuildContent(body, html, info)
    ensures |r.1| <= fuel
    ensures r.0.Delivered? ==> |r.1| >= 1 && server(r.1[|r.1| - 1]) == Accepted(r.0.eventId)
  {
    if fuel == 0 then (OutOfFuel, [])
    else
      var content := BuildContent(body, html, info);
      match StepAsWritten(server(content), shorten, body, html)
      case Finish(outcome) => (outcome, [content])
      case Resend(next) =>
        var rest := SendAsWritten(server, shorten, next, None, info, fuel - 1);
        (rest.0, [content] + rest.1)
  }

  /** On `M_TOO_LARGE` with html, exactly one retry follows, with the same body and info
      and no html. */
  lemma SendDropsHtmlOnce(server: Content -> Response, shorten: string -> string,
                          body: string, h: string, info: Content, fuel: nat)
    requires fuel >= 2 && IsTooLarge(server(BuildContent(body, Some(h), info)))
    ensures SendAsWritten(server, shorten, body, Some(h), info, fuel).1[1] == BuildContent(body, None, info)
    ensures SendAsWritten(server, shorten, body, Some(h), info, fuel).0 ==
              SendAsWritten(server, shorten, body, None, info, fuel - 1).0
  {
  }

  /** As written, a rejected body longer than the width is never trimmed: the assert
      fires on the first rejection. */
  lemma SendAsWrittenLongBodyFails(server: Content -> Response, shorten: string -> string,
                                   body: string, info: Content, fuel: nat)
    requires fuel >= 1 && |body| > AllowedWidth && IsTooLarge(server(BuildContent(body, None, info)))
    ensures SendAsWritten(server, shorten, body, None, info, fuel) == (WidthAssertion, [BuildContent(body, None, info)])
  {
  }

  /** As written, a rejected body within the width is "trimmed" and resent; a shortener
      that leaves short text alone resends the same content until the fuel is gone. */
  lemma SendAsWrittenShortBodyLoops(server: Content -> Response, shorten: string -> string,
                                    body: string, info: Content, fuel: nat)
    requires |body| <= AllowedWidth && shorten(body) == body
    requires forall c :: IsTooLarge(server(c))
    ensures SendAsWritten(server, shorten, body, None, info, fuel).0 == OutOfFuel
    ensures |SendAsWritten(server, shorten, body, None, info, fuel).1| == fuel
  {
    if fuel > 0 {
      SendAsWrittenShortBodyLoops(server, shorten, body, info, fuel - 1);
    }
  }

  /** The step with the width check the assert message describes: a rejected body
      longer than the width is resent shortened, and a rejected body already within
      the width is the error. */
  function StepCorrected(resp: Response, shorten: string -> string, body: string, html: Option<string>): (r: Step)
    ensures IsTooLarge(resp) && html.Some? ==> r == Resend(body)
    ensures IsTooLarge(resp) && html.None? ==>
              r == (if |body| > AllowedWidth then Resend(shorten(body)) else Finish(WidthAssertion))
    ensures !IsTooLarge(resp) ==> r.Finish? && r.outcome == Settle(resp)
  {
    if !IsTooLarge(resp) then Finish(Settle(resp))
    else if html.Some? then Resend(body)
    else if |body| > AllowedWidth then Resend(shorten(body))
    else Finish(WidthAssertion)
  }

  /** The attempts still owed: one for dropping html, one for trimming an over-long body. */
  function RetryBudget(body: string, html: Option<string>): nat {
    (if html.Some? then 1 else 0) + (if |body| > AllowedWidth then 1 else 0)
  }

  /** `c_send_msg` with the corrected step. It needs no fuel: at most three attempts. */
  function Send(server: Content -> Response, shorten: string -> string,
                body: string, html: Option<string>, info: Content): (r: (SendOutcome, seq<Content>))
    requires forall s :: |shorten(s)| <= AllowedWidth
    decreases RetryBudget(body, html)
    ensures 1 <= |r.1| <= 1 + RetryBudget(body, html) <= 3
    ensures r.1[0] == BuildContent(body, html, info)
    ensures r.0 != OutOfFuel
    ensures r.0.Delivered? ==> server(r.1[|r.1| - 1]) == Accepted(r.0.eventId)
    ensures forall k :: 0 <= k < |r.1| ==> "body" in r.1[k]
    ensures forall k :: 1 <= k < |r.1| ==> r.1[k]["body"] == body || |r.1[k]["body"]| <= AllowedWidth
    ensures forall k :: 1 <= k < |r.1| ==> ("formatted_body" in r.1[k] <==> "formatted_body" in info)
  {
    var content := BuildContent(body, html, info);
    match StepCorrected(server(content), shorten, body, html)
    case Finish(outcome) => (outcome, [content])
    case Resend(next) =>
      var rest := Send(server, shorten, next, None, info);
      (rest.0, [content] + rest.1)
  }

  /** Where the two versions part: a server that takes at most `AllowedWidth` characters
      makes the written version fail on a long plain body, and the corrected one deliver
      its trimmed form. */
  lemma SendTrimsLongBody(server: Content -> Response, shorten: string -> string,
                          body: string, info: Content, fuel: nat)
    requires forall s :: |shorten(s)| <= AllowedWidth
    requires forall c :: "body" in c ==>
               server(c) == (if |c["body"]| > AllowedWidth then Rejected(413, "M_TOO_LARGE") else Accepted("$e"))
    requires |body| > AllowedWidth && fuel >= 1
    ensures SendAsWritten(server, shorten, body, None, info, fuel).0 == WidthAssertion
    ensures Send(server, shorten, body, None, info).0 == Delivered("$e")
  {
    assert |shorten(body)| <= AllowedWidth;
  }

  /** `set_room_power_levels`: `users.update(power_levels)`. */
  function SetRoomPowerLevels(users: map<string, int>, levels: map<string, int>): (r: map<string, int>)
    ensures r.Keys == users.Keys + levels.Keys
    ensures forall k :: k in levels ==> r[k] == levels[k]
    ensures forall k :: k in users && k !in levels ==> r[k] == users[k]
  {
    users + levels
  }

  /** `get_room_power_levels`: every joined member with its explicit level or `users_default`. */
  function GetRoomPowerLevels(members: seq<string>, usersDefault: int, users: map<string, int>): (r: map<string, int>)
    ensures r.Keys == set m | m in members
    ensures forall m :: m in r ==> r[m] == (if m in users then users[m] else usersDefault)
  {
    map m | m in members :: if m in users then users[m] else usersDefault
  }

  /** Reading after a merge: members named in the merge get their new level, every other
      member keeps what it had. */
  lemma GetAfterSet(members: seq<string>, usersDefault: int, users: map<string, int>, levels: map<string, int>, m: string)
    requires m in members
    ensures m in levels ==> GetRoomPowerLevels(members, usersDefault, SetRoomPowerLevels(users, levels))[m] == levels[m]
    ensures m !in levels ==>
              GetRoomPowerLevels(members, usersDefault, SetRoomPowerLevels(users, levels))[m] ==
              GetRoomPowerLevels(members, usersDefault, users)[m]
  {
  }

  /** A timeline event as `/sync` returns it; `wellFormed` is false for what
      `nio.Event.parse_event` turns into a bad event. */
  datatype Event = Event(eventId: string, wellFormed: bool)

  /** One `/sync` answer: the room's timeline page (chronological), or no entry for the room. */
  datatype Page = RoomAbsent | Timeline(events: seq<Event>)

  /** Outcome of the visibility probe `c_room_get_event` on the boundary event. */
  datatype Probe = ProbeOk | ProbeForbidden | ProbeFailed

  datatype OldEventsError = ProbeError | InvisibleBoundarySeen | BoundaryNotFound

  predicate IsGood(e: Event) {
    e.wellFormed
  }

  /** How many pages come before the first page without the room (or the end). */
  function PresentCount(pages: seq<Page>): (r: nat)
    ensures r <= |pages|
    ensures forall k :: 0 <= k < r ==> pages[k].Timeline?
    ensures r < |pages| ==> pages[r].RoomAbsent?
  {
    if pages == [] || pages[0].RoomAbsent? then 0 else 1 + PresentCount(pages[1..])
  }

  /** The events of the first `p` pages, newest first: each page reversed, pages in
      the order they are fetched. */
  function NewestFirst(pages: seq<Page>, p: nat): (r: seq<Event>)
    requires p <= PresentCount(pages)
  {
    if p == 0 then [] else NewestFirst(pages, p - 1) + Reverse(pages[p - 1].events)
  }

  /** Later prefixes extend earlier ones. */
  lemma {:induction false} NewestFirstPrefix(pages: seq<Page>, p: nat, q: nat)
    requires p <= q <= PresentCount(pages)
    ensures |NewestFirst(pages, p)| <= |NewestFirst(pages, q)|
    ensures NewestFirst(pages, p) == NewestFirst(pages, q)[..|NewestFirst(pages, p)|]
    decreases q
  {
    if p < q {
      NewestFirstPrefix(pages, p, q - 1);
    }
  }

  /** A page that holds the room extends the walk by its events, newest first. */
  lemma NewestFirstStep(pages: seq<Page>, p: nat)
    requires p < |pages| && p <= PresentCount(pages) && pages[p].Timeline?
    ensures p < PresentCount(pages)
    ensures NewestFirst(pages, p + 1) == NewestFirst(pages, p) + Reverse(pages[p].events)
  {
  }

  /** Every event of the walk's range, newest first. */
  function Stream(pages: seq<Page>): seq<Event> {
    NewestFirst(pages, PresentCount(pages))
  }

  /** The walk has taken in the whole stream once it reaches the end or a page without
      the room. */
  lemma StreamEnd(pages: seq<Page>, p: nat)
    requires p <= PresentCount(pages) && (p == |pages| || pages[p].RoomAbsent?)
    ensures Stream(pages) == NewestFirst(pages, p)
  {
    assert p == PresentCount(pages);
  }

  /** Index of the first (newest) event with id `id`. */
  function FirstIdIndex(s: seq<Event>, id: string): (r: Option<nat>)
    ensures r.Some? ==> r.value < |s| && s[r.value].eventId == id
    ensures r.Some? ==> forall k :: 0 <= k < r.value ==> s[k].eventId != id
    ensures r.None? ==> forall k :: 0 <= k < |s| ==> s[k].eventId != id
  {
    if s == [] then None
    else if s[0].eventId == id then Some(0)
    else match FirstIdIndex(s[1..], id)
      case None => None
      case Some(k) => Some(k + 1)
  }

  /** Whether the boundary event can be seen: only probed with `flexible_visibility`. */
  predicate BoundaryVisible(after: Option<string>, flexible: bool, probe: Probe) {
    !(flexible && after.Some? && probe == ProbeForbidden)
  }

  /** The events newer than `after`, oldest first, skipping bad events; the walk stops at
      the boundary or at the first page without the room. */
  function OldEvents(pages: seq<Page>, after: Option<string>, flexible: bool, probe: Probe): (r: Result<seq<Event>, OldEventsError>)
    ensures r.Ok? ==> forall k :: 0 <= k < |r.value| ==> IsGood(r.value[k]) && r.value[k] in Stream(pages)
    ensures r.Ok? && after.Some? ==> forall k :: 0 <= k < |r.value| ==> r.value[k].eventId != after.value
    ensures r.Ok? && after.Some? && BoundaryVisible(after, flexible, probe) ==> FirstIdIndex(Stream(pages), after.value).Some?
  {
    if flexible && after.Some? && probe == ProbeFailed then Err(ProbeError)
    else
      var s := Stream(pages);
      var boundary := if after.Some? then FirstIdIndex(s, after.value) else None;
      match boundary
      case Some(k) =>
        if !BoundaryVisible(after, flexible, probe) then Err(InvisibleBoundarySeen)
        else Ok(Reverse(Filter(IsGood, s[..k])))
      case None =>
        if after.Some? && BoundaryVisible(after, flexible, probe) then Err(BoundaryNotFound)
        else Ok(Reverse(Filter(IsGood, s)))
  }

  /** `OldEvents` once the boundary is found at position `k` of the stream. */
  lemma OldEventsAtBoundary(pages: seq<Page>, after: Option<string>, flexible: bool, probe: Probe, k: nat)
    requires !(flexible && after.Some? && probe == ProbeFailed)
    requires after.Some? && FirstIdIndex(Stream(pages), after.value) == Some(k)
    ensures OldEvents(pages, after, flexible, probe) ==
              if BoundaryVisible(after, flexible, probe) then Ok(Reverse(Filter(IsGood, Stream(pages)[..k])))
              else Err(InvisibleBoundarySeen)
  {
  }

  /** `OldEvents` when no event of the stream is the boundary. */
  lemma OldEventsWithoutBoundary(pages: seq<Page>, after: Option<string>, flexible: bool, probe: Probe)
    requires !(flexible && after.Some? && probe == ProbeFailed)
    requires Avoids(Stream(pages), after)
    ensures OldEvents(pages, after, flexible, probe) ==
              if after.Some? && BoundaryVisible(after, flexible, probe) then Err(BoundaryNotFound)
              else Ok(Reverse(Filter(IsGood, Stream(pages))))
  {
  }

  lemma FirstIdIndexAt(s: seq<Event>, id: string, k: nat)
    requires k < |s| && s[k].eventId == id
    requires forall j :: 0 <= j < k ==> s[j].eventId != id
    ensures FirstIdIndex(s, id) == Some(k)
  {
  }

  /** What the scan passed over on page `p`, with the event it stopped at, begins the
      walk through page `p`. */
  lemma HitPrefix(pages: seq<Page>, p: nat, seen: seq<Event>, i: nat)
    requires p < PresentCount(pages) && i < |pages[p].events|
    requires seen == NewestFirst(pages, p) + Reverse(pages[p].events)[..|pages[p].events| - 1 - i]
    ensures |seen| + 1 <= |NewestFirst(pages, p + 1)|
    ensures seen + [pages[p].events[i]] == NewestFirst(pages, p + 1)[..|seen| + 1]
  {
    var a := NewestFirst(pages, p);
    assert NewestFirst(pages, p + 1) == a + Reverse(pages[p].events);
    ReverseHitPrefix(a, pages[p].events, i, seen);
  }

  /** The boundary met while scanning page `p` is the first one in the whole stream, and
      everything scanned before it is the stream's prefix. */
  lemma BoundaryInStream(pages: seq<Page>, p: nat, seen: seq<Event>, i: nat, id: string)
    requires p < PresentCount(pages) && i < |pages[p].events|
    requires seen == NewestFirst(pages, p) + Reverse(pages[p].events)[..|pages[p].events| - 1 - i]
    requires pages[p].events[i].eventId == id
    requires forall k :: 0 <= k < |seen| ==> seen[k].eventId != id
    ensures |seen| < |Stream(pages)| && seen == Stream(pages)[..|seen|]
    ensures FirstIdIndex(Stream(pages), id) == Some(|seen|)
  {
    var x := pages[p].events[i];
    var next := NewestFirst(pages, p + 1);
    HitPrefix(pages, p, seen, i);
    NewestFirstPrefix(pages, p + 1, PresentCount(pages));
    var s := Stream(pages);
    PrefixOfPrefix(seen + [x], next, s, |seen| + 1);
    SnocPrefixParts(seen, x, s);
    FirstIdIndexAt(s, id, |seen|);
  }

  /** No event of `s` is the boundary. */
  predicate Avoids(s: seq<Event>, after: Option<string>) {
    after.None? || forall k :: 0 <= k < |s| ==> s[k].eventId != after.value
  }

  lemma AvoidsSnoc(s: seq<Event>, e: Event, after: Option<string>)
    requires Avoids(s, after) && (after.None? || e.eventId != after.value)
    ensures Avoids(s + [e], after)
  {
  }

  /** Meeting the boundary `j` steps into the reversed page: its position in the page. */
  lemma ScanHit(events: seq<Event>, i: nat, j: nat, seen0: seq<Event>, seen: seq<Event>)
    requires i + j + 1 == |events| && seen == seen0 + Reverse(events)[..j]
    ensures events[i] == Reverse(events)[j]
    ensures seen == seen0 + Reverse(events)[..|events| - 1 - i]
  {
    assert |events| - 1 - i == j;
    assert Reverse(events)[j] == events[|events| - 1 - j];
  }

  /** Passing over one more event keeps the scan's invariants. */
  lemma ScanAdvance(newest: seq<Event>, j: nat, seen0: seq<Event>, seen: seq<Event>, rv: seq<Event>,
                    after: Option<string>)
    requires j < |newest| && seen == seen0 + newest[..j]
    requires Avoids(seen, after) && rv == Filter(IsGood, seen)
    requires after.None? || newest[j].eventId != after.value
    ensures seen + [newest[j]] == seen0 + newest[..j + 1]
    ensures Avoids(seen + [newest[j]], after)
    ensures rv + (if IsGood(newest[j]) then [newest[j]] else []) == Filter(IsGood, seen + [newest[j]])
  {
    var e := newest[j];
    PrefixSnoc(seen0, newest, j);
    FilterSnoc(IsGood, seen, e);
    AvoidsSnoc(seen, e, after);
  }

  /** The events of `newest` in order, stopping at the boundary: `passed` is every event
      before it, `good` the good ones among them, and `stop` the boundary's position in
      `newest` if it is there. */
  method ScanNewest(newest: seq<Event>, after: Option<string>)
    returns (good: seq<Event>, stop: Option<nat>, passed: seq<Event>)
    ensures good == Filter(IsGood, passed)
    ensures Avoids(passed, after)
    ensures stop.None? ==> passed == newest
    ensures stop.Some? ==> after.Some? && stop.value < |newest| && newest[stop.value].eventId == after.value
    ensures stop.Some? ==> passed == newest[..stop.value]
    decreases |newest|
  {
    if newest == [] {
      return [], None, [];
    }
    var e := newest[0];
    if after.Some? && e.eventId == after.value {
      assert newest[..0] == [];
      return [], Some(0), [];
    }
    var good1, st, passed1 := ScanNewest(newest[1..], after);
    good := (if IsGood(e) then [e] else []) + good1;
    passed := [e] + passed1;
    ScanNewestCons(newest, after, good1, st, passed1);
    stop := if st.Some? then Some(st.value + 1) else None;
  }

  /** Putting the first event of `newest` back in front of the scan of the rest. */
  lemma ScanNewestCons(newest: seq<Event>, after: Option<string>, good1: seq<Event>, st: Option<nat>,
                       passed1: seq<Event>)
    requires newest != [] && (after.None? || newest[0].eventId != after.value)
    requires good1 == Filter(IsGood, passed1) && Avoids(passed1, after)
    requires st.None? ==> passed1 == newest[1..]
    requires st.Some? ==> st.value < |newest| - 1 && passed1 == newest[1..][..st.value]
    ensures var e := newest[0];
            (if IsGood(e) then [e] else []) + good1 == Filter(IsGood, [e] + passed1)
    ensures Avoids([newest[0]] + passed1, after)
    ensures st.None? ==> [newest[0]] + passed1 == newest
    ensures st.Some? ==> newest[st.value + 1] == newest[1..][st.value] &&
                         [newest[0]] + passed1 == newest[..st.value + 1]
  {
    var e := newest[0];
    FilterCons(IsGood, e, passed1);
    AvoidsAppend([e], passed1, after);
    ConsParts(newest, st, passed1);
  }

  lemma ConsParts(newest: seq<Event>, st: Option<nat>, passed1: seq<Event>)
    requires newest != []
    requires st.None? ==> passed1 == newest[1..]
    requires st.Some? ==> st.value < |newest| - 1 && passed1 == newest[1..][..st.value]
    ensures st.None? ==> [newest[0]] + passed1 == newest
    ensures st.Some? ==> newest[st.value + 1] == newest[1..][st.value] &&
                         [newest[0]] + passed1 == newest[..st.value + 1]
  {
    assert newest == [newest[0]] + newest[1..];
    if st.Some? {
      assert newest[..st.value + 1] == [newest[0]] + newest[1..][..st.value];
    }
  }

  lemma AvoidsAppend(a: seq<Event>, b: seq<Event>, after: Option<string>)
    requires Avoids(a, after) && Avoids(b, after)
    ensures Avoids(a + b, after)
  {
    if after.Some? {
      forall k | 0 <= k < |a + b|
        ensures (a + b)[k].eventId != after.value
      {
        if k >= |a| {
          assert (a + b)[k] == b[k - |a|];
        }
      }
    }
  }

  /** The inner loop of `get_old_events`: one page scanned newest first, stopping at the
      boundary event. `seen` is every event passed over, `rv` the good ones among them. */
  method ScanPage(events: seq<Event>, after: Option<string>, rv0: seq<Event>, seen0: seq<Event>)
    returns (rv: seq<Event>, hit: Option<nat>, seen: seq<Event>)
    requires rv0 == Filter(IsGood, seen0)
    requires Avoids(seen0, after)
    ensures rv == Filter(IsGood, seen)
    ensures Avoids(seen, after)
    ensures hit.None? ==> seen == seen0 + Reverse(events)
    ensures hit.Some? ==> after.Some? && hit.value < |events| && events[hit.value].eventId == after.value
    ensures hit.Some? ==> seen == seen0 + Reverse(events)[..|events| - 1 - hit.value]
  {
    var newest := Reverse(events);
    var good, stop, passed := ScanNewest(newest, after);
    rv, seen := rv0 + good, seen0 + passed;
    FilterAppend(IsGood, seen0, passed);
    AvoidsAppend(seen0, passed, after);
    if stop.Some? {
      var j := stop.value;
      var i := |events| - 1 - j;
      ScanHit(events, i, j, seen0, seen);
      hit := Some(i);
      assert hit.value == i;
    } else {
      hit := None;
    }
  }

  /** One page of the walk: scans page `p` and reports the boundary's stream position if
      it was met there. */
  method VisitPage(pages: seq<Page>, p: nat, after: Option<string>, rv0: seq<Event>, seen0: seq<Event>)
    returns (rv: seq<Event>, found: Option<nat>, seen: seq<Event>)
    requires p < |pages| && p <= PresentCount(pages) && pages[p].Timeline?
    requires seen0 == NewestFirst(pages, p) && Avoids(seen0, after) && rv0 == Filter(IsGood, seen0)
    ensures rv == Filter(IsGood, seen)
    ensures found.None? ==> p + 1 <= PresentCount(pages) && seen == NewestFirst(pages, p + 1) && Avoids(seen, after)
    ensures found.Some? ==> after.Some? && FirstIdIndex(Stream(pages), after.value) == found &&
                            found.value <= |Stream(pages)| && seen == Stream(pages)[..found.value]
  {
    NewestFirstStep(pages, p);
    var hit;
    rv, hit, seen := ScanPage(pages[p].events, after, rv0, seen0);
    if hit.Some? {
      BoundaryInStream(pages, p, seen, hit.value, after.value);
      found := Some(|seen|);
    } else {
      found := None;
    }
  }

  /** The page loop of `get_old_events` from page `p` on: fetches pages until the room is
      absent or the boundary appears, scanning each page from its newest event. `found`
      is the boundary's position in the stream, and `seen` every event passed over before
      it. */
  method WalkPages(pages: seq<Page>, p: nat, after: Option<string>, rv0: seq<Event>, seen0: seq<Event>)
    returns (rv: seq<Event>, found: Option<nat>, seen: seq<Event>)
    requires p <= PresentCount(pages)
    requires seen0 == NewestFirst(pages, p) && Avoids(seen0, after) && rv0 == Filter(IsGood, seen0)
    decreases |pages| - p
    ensures rv == Filter(IsGood, seen)
    ensures found.None? ==> seen == Stream(pages) && Avoids(seen, after)
    ensures found.Some? ==> after.Some? && FirstIdIndex(Stream(pages), after.value) == found &&
                            found.value <= |Stream(pages)| && seen == Stream(pages)[..found.value]
  {
    if p < |pages| && pages[p].Timeline? {
      rv, found, seen := VisitPage(pages, p, after, rv0, seen0);
      if found.None? {
        rv, found, seen := WalkPages(pages, p + 1, after, rv, seen);
      }
    } else {
      StreamEnd(pages, p);
      rv, found, seen := rv0, None, seen0;
    }
  }

  /** `get_old_events`: probes the boundary's visibility, walks the pages, and checks that
      a visible boundary was met. */
  method GetOldEvents(pages: seq<Page>, after: Option<string>, flexible: bool, probe: Probe)
    returns (r: Result<seq<Event>, OldEventsError>)
    ensures r == OldEvents(pages, after, flexible, probe)
  {
    var visible := true;
    if flexible && after.Some? {
      match probe
      case ProbeOk =>
      case ProbeForbidden => visible := false;
      case ProbeFailed => return Err(ProbeError);
    }
    assert visible == BoundaryVisible(after, flexible, probe);
    assert Filter(IsGood, []) == [];
    var rv, found, seen := WalkPages(pages, 0, after, [], []);
    if found.Some? {
      OldEventsAtBoundary(pages, after, flexible, probe, found.value);
      if !visible {
        return Err(InvisibleBoundarySeen);
      }
      return Ok(Reverse(rv));
    }
    OldEventsWithoutBoundary(pages, after, flexible, probe);
    if after.Some? && visible {
      return Err(BoundaryNotFound);
    }
    r := Ok(Reverse(rv));
  }
}
