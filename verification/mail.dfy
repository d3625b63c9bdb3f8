/** The mail-side decisions of app/gmail.py: the `Gmail` record and its recipients,
    which listed ids are new, how a parsed MIME message becomes a body pair, sender and
    attachments, the reply subject and thread headers, the outgoing address headers,
    and the OAuth scope check. The Gmail API, `mailparser` and BeautifulSoup are
    outside the model: their results are inputs or function parameters. */
module Mail {
  import opened Wrappers
  import opened Strings
  import opened Seqs
  import opened Models

  datatype Gmail = Gmail(
    gmailId: string,
    threadId: string,
    sender: string,
    to: seq<string>,
    content: MsgContent,
    cc: seq<string>)

  /** `Gmail.reciepients`. */
  function Recipients(m: Gmail): (r: seq<string>)
    ensures |r| == |m.to| + |m.cc|
    ensures forall x :: x in r <==> x in m.to || x in m.cc
    ensures r[..|m.to|] == m.to && r[|m.to|..] == m.cc
  {
    m.to + m.cc
  }

  /** `Gmail.without_reciepient`: every occurrence of the address leaves `to` and `cc`;
      removing the sender is refused by an assert. */
  function WithoutRecipient(m: Gmail, address: string): (r: Gmail)
    requires address != m.sender
    ensures address !in r.to && address !in r.cc
    ensures forall y :: y != address ==> (y in r.to <==> y in m.to) && (y in r.cc <==> y in m.cc)
    ensures forall y :: y != address ==> multiset(r.to)[y] == multiset(m.to)[y]
    ensures forall y :: y != address ==> multiset(r.cc)[y] == multiset(m.cc)[y]
    ensures r.sender == m.sender && r.gmailId == m.gmailId && r.threadId == m.threadId && r.content == m.content
  {
    m.(to := Without(m.to, address), cc := Without(m.cc, address))
  }

  /** The recipients after removal are the old recipients without the address, in order. */
  lemma RecipientsWithout(m: Gmail, address: string)
    requires address != m.sender
    ensures Recipients(WithoutRecipient(m, address)) == Without(Recipients(m), address)
  {
    WithoutAppend(m.to, m.cc, address);
  }

  /** The self-sent filter of `get_new_mails`: mails whose sender is the account itself
      are skipped. */
  function NotFromSelf(mails: seq<Gmail>, emailId: string): (r: seq<Gmail>)
    ensures forall k :: 0 <= k < |r| ==> r[k].sender != emailId
    ensures forall m :: m in r <==> m in mails && m.sender != emailId
  {
    Filter((m: Gmail) => m.sender != emailId, mails)
  }

  /** Mail from others passes the filter untouched. */
  lemma NotFromSelfKeepsOthers(mails: seq<Gmail>, emailId: string)
    requires forall k :: 0 <= k < |mails| ==> mails[k].sender != emailId
    ensures NotFromSelf(mails, emailId) == mails
  {
    FilterAll((m: Gmail) => m.sender != emailId, mails);
  }

  /** Strictly ascending in Python's string order. */
  predicate Ascending(s: seq<string>) {
    forall i, j :: 0 <= i < j < |s| ==> Less(s[i], s[j])
  }

  lemma AscendingNoDup(s: seq<string>)
    requires Ascending(s)
    ensures NoDup(s)
  {
    forall i, j | 0 <= i < j < |s|
      ensures s[i] != s[j]
    {
      LessIrreflexive(s[i]);
    }
  }

  /** Inserts `x` into an ascending sequence unless it is already there. */
  function InsertSorted(x: string, s: seq<string>): (r: seq<string>)
    requires Ascending(s)
    ensures Ascending(r)
    ensures forall y :: y in r <==> y == x || y in s
  {
    if s == [] then [x]
    else if x == s[0] then s
    else if Less(x, s[0]) then
      forall j | 0 <= j < |s| ensures Less(x, s[j]) {
        if j > 0 {
          LessTransitive(x, s[0], s[j]);
        }
      }
      [x] + s
    else
      LessTotal(x, s[0]);
      var rest := InsertSorted(x, s[1..]);
      assert forall y :: y in rest ==> Less(s[0], y);
      [s[0]] + rest
  }

  /** `sorted(set(ids))`. */
  function SortedUnique(ids: seq<string>): (r: seq<string>)
    ensures Ascending(r)
    ensures forall y :: y in r <==> y in ids
  {
    if ids == [] then [] else InsertSorted(ids[|ids| - 1], SortedUnique(ids[..|ids| - 1]))
  }

  /** Keeping some elements of an ascending sequence leaves it ascending. */
  lemma {:induction false} FilterAscending(keep: string -> bool, s: seq<string>)
    requires Ascending(s)
    ensures Ascending(Filter(keep, s))
  {
    if s != [] {
      FilterAscending(keep, s[1..]);
      var rest := Filter(keep, s[1..]);
      assert forall y :: y in rest ==> y in s[1..];
      assert forall j :: 0 <= j < |rest| ==> Less(s[0], rest[j]) by {
        forall j | 0 <= j < |rest| ensures Less(s[0], rest[j]) {
          var k :| 0 <= k < |s[1..]| && s[1..][k] == rest[j];
        }
      }
    }
  }

  /** The watermark test of `_get_new_email_ids`: `after_mail_id is None or id > after_mail_id`. */
  predicate IsAfter(after: Option<string>, id: string) {
    after.None? || Less(after.value, id)
  }

  /** `_get_new_email_ids` after paging: the listed ids (pages concatenated) deduplicated,
      sorted, and cut strictly after the last handled id. */
  function SelectNewIds(listed: seq<string>, after: Option<string>): (r: seq<string>)
    ensures Ascending(r) && NoDup(r)
    ensures forall y :: y in r <==> y in listed && IsAfter(after, y)
  {
    var sorted := SortedUnique(listed);
    FilterAscending(id => IsAfter(after, id), sorted);
    var r := Filter(id => IsAfter(after, id), sorted);
    AscendingNoDup(r);
    r
  }

  /** An ascending sequence is determined by its elements, so `SelectNewIds` is the one
      sorted, duplicate-free list of the new ids. */
  lemma AscendingHeadLeast(s: seq<string>, y: string)
    requires Ascending(s) && y in s
    ensures y == s[0] || Less(s[0], y)
  {
    var k :| 0 <= k < |s| && s[k] == y;
    assert k == 0 || Less(s[0], s[k]);
  }

  lemma AscendingTail(s: seq<string>, y: string)
    requires Ascending(s) && |s| > 0
    ensures y in s[1..] <==> y in s && y != s[0]
  {
    assert s == [s[0]] + s[1..];
    LessIrreflexive(s[0]);
    if y in s[1..] {
      var k :| 0 <= k < |s[1..]| && s[1..][k] == y;
      assert Less(s[0], s[k + 1]);
    }
  }

  lemma {:induction false} AscendingUnique(a: seq<string>, b: seq<string>)
    requires Ascending(a) && Ascending(b)
    requires forall y :: y in a <==> y in b
    ensures a == b
  {
    assert a != [] ==> a[0] in b;
    assert b != [] ==> b[0] in a;
    if a != [] {
      AscendingHeadLeast(b, a[0]);
      AscendingHeadLeast(a, b[0]);
      LessIrreflexive(a[0]);
      LessAntisymmetric(a[0], b[0]);
      assert a[0] == b[0];
      forall y
        ensures y in a[1..] <==> y in b[1..]
      {
        AscendingTail(a, y);
        AscendingTail(b, y);
      }
      AscendingUnique(a[1..], b[1..]);
      assert a == [a[0]] + a[1..] && b == [b[0]] + b[1..];
    }
  }

  /** Python `html.escape(c)` for one character (with `quote=True`). */
  function EscapeChar(c: char): (r: string)
    ensures '<' !in r && '>' !in r && '"' !in r && '\'' !in r
    ensures |r| >= 1
  {
    if c == '&' then "&amp;"
    else if c == '<' then "&lt;"
    else if c == '>' then "&gt;"
    else if c == '"' then "&quot;"
    else if c == '\'' then "&#x27;"
    else [c]
  }

  /** Python `html.escape(s)`. */
  function Escape(s: string): (r: string)
    ensures '<' !in r && '>' !in r && '"' !in r && '\'' !in r
    ensures |r| >= |s|
  {
    if s == [] then [] else EscapeChar(s[0]) + Escape(s[1..])
  }

  /** The character an entity at the start of `s` stands for, and the entity's length. */
  function Entity(s: string): (r: Option<(char, nat)>)
    ensures r.Some? ==> 1 <= r.value.1 <= |s|
  {
    if s == [] || s[0] != '&' then None
    else if StartsWith(s, "&amp;") then Some(('&', 5))
    else if StartsWith(s, "&lt;") then Some(('<', 4))
    else if StartsWith(s, "&gt;") then Some(('>', 4))
    else if StartsWith(s, "&quot;") then Some(('"', 6))
    else if StartsWith(s, "&#x27;") then Some(('\'', 6))
    else None
  }

  /** The inverse of `Escape`: the five entities back to their characters. */
  function Unescape(s: string): string
    decreases |s|
  {
    if s == [] then []
    else match Entity(s)
      case Some((c, n)) => [c] + Unescape(s[n..])
      case None => [s[0]] + Unescape(s[1..])
  }

  lemma EntityAmp(t: string)
    ensures Entity("&amp;" + t) == Some(('&', 5))
  {
    assert ("&amp;" + t)[..5] == "&amp;";
  }

  lemma EntityLt(t: string)
    ensures Entity("&lt;" + t) == Some(('<', 4))
  {
    var s := "&lt;" + t;
    assert s[..4] == "&lt;";
    assert s[1] == 'l';
    assert !StartsWith(s, "&amp;") by { assert "&amp;"[1] == 'a'; }
  }

  lemma EntityGt(t: string)
    ensures Entity("&gt;" + t) == Some(('>', 4))
  {
    var s := "&gt;" + t;
    assert s[..4] == "&gt;";
    assert s[1] == 'g';
    assert !StartsWith(s, "&amp;") by { assert "&amp;"[1] == 'a'; }
    assert !StartsWith(s, "&lt;") by { assert "&lt;"[1] == 'l'; }
  }

  lemma EntityQuot(t: string)
    ensures Entity("&quot;" + t) == Some(('"', 6))
  {
    var s := "&quot;" + t;
    assert s[..6] == "&quot;";
    assert s[1] == 'q';
    assert !StartsWith(s, "&amp;") by { assert "&amp;"[1] == 'a'; }
    assert !StartsWith(s, "&lt;") by { assert "&lt;"[1] == 'l'; }
    assert !StartsWith(s, "&gt;") by { assert "&gt;"[1] == 'g'; }
  }

  lemma EntityApos(t: string)
    ensures Entity("&#x27;" + t) == Some(('\'', 6))
  {
    var s := "&#x27;" + t;
    assert s[..6] == "&#x27;";
    assert s[1] == '#';
    assert !StartsWith(s, "&amp;") by { assert "&amp;"[1] == 'a'; }
    assert !StartsWith(s, "&lt;") by { assert "&lt;"[1] == 'l'; }
    assert !StartsWith(s, "&gt;") by { assert "&gt;"[1] == 'g'; }
    assert !StartsWith(s, "&quot;") by { assert "&quot;"[1] == 'q'; }
  }

  lemma UnescapeEntity(c: char, t: string)
    ensures Unescape(EscapeChar(c) + t) == [c] + Unescape(t)
  {
    var e := EscapeChar(c);
    var s := e + t;
    assert s[|e|..] == t;
    if c == '&' {
      EntityAmp(t);
    } else if c == '<' {
      EntityLt(t);
    } else if c == '>' {
      EntityGt(t);
    } else if c == '"' {
      EntityQuot(t);
    } else if c == '\'' {
      EntityApos(t);
    } else {
      assert s[0] == c && s[1..] == t;
      assert Entity(s) == None;
    }
  }

  /** Escaping loses nothing: the text shown from the generated html is the plain body. */
  lemma {:induction false} UnescapeEscape(s: string)
    ensures Unescape(Escape(s)) == s
  {
    if s != [] {
      UnescapeEscape(s[1..]);
      UnescapeEntity(s[0], Escape(s[1..]));
      assert s == [s[0]] + s[1..];
    }
  }

  const EmptyHtml: string := "<div></div>"

  /** `_parse_msg_body`: the body pair from the text/plain and text/html parts. `getText`
      is BeautifulSoup's `get_text`; `stripQuotes` removes the `gmail_quote` divs and
      returns the new text and html. When both parts are missing it returns at once. */
  function ParseMsgBody(plain: seq<string>, html: seq<string>, withGmailQuote: bool,
                        getText: string -> string, stripQuotes: string -> (string, string)): (r: (string, string))
    ensures plain == [] && html == [] ==> r == ("", EmptyHtml)
    ensures withGmailQuote && plain != [] ==> r.0 == plain[0]
    ensures withGmailQuote && html != [] ==> r.1 == html[0]
    ensures withGmailQuote && plain == [] && html != [] ==> r.0 == getText(html[0])
    ensures withGmailQuote && plain != [] && html == [] ==> r.1 == "<div>" + Escape(plain[0]) + "<div>"
    ensures !withGmailQuote && (plain != [] || html != []) ==>
              r == stripQuotes(if html != [] then html[0] else "<div>" + Escape(plain[0]) + "<div>")
  {
    if plain == [] && html == [] then ("", EmptyHtml)
    else
      var pair :=
        if plain == [] then (getText(html[0]), html[0])
        else if html == [] then (plain[0], "<div>" + Escape(plain[0]) + "<div>")
        else (plain[0], html[0]);
      if withGmailQuote then pair else stripQuotes(pair.1)
  }

  /** For a plain-only mail, the generated html shows exactly the plain body. */
  lemma PlainOnlyHtmlShowsBody(body: string, getText: string -> string, stripQuotes: string -> (string, string))
    ensures var r := ParseMsgBody([body], [], true, getText, stripQuotes);
            r.0 == body && r.1 == "<div>" + Escape(body) + "<div>" && Unescape(Escape(body)) == body
  {
    UnescapeEscape(body);
  }

  /** An address as `mailparser` gives it: a bare string or a list of parts. */
  datatype AddressField = Bare(address: string) | Parts(parts: seq<string>)

  /** `_parse_mail`: a string is the address; `[addr]` gives addr; `[name, addr, ...]`
      gives the second part; an empty list is an error. */
  function ParseAddress(m: AddressField): (r: Option<string>)
    ensures r.None? <==> m.Parts? && m.parts == []
    ensures r.Some? && m.Bare? ==> r.value == m.address
    ensures r.Some? && m.Parts? ==> r.value in m.parts && r.value == m.parts[if |m.parts| == 1 then 0 else 1]
  {
    match m
    case Bare(a) => Some(a)
    case Parts(ps) =>
      if |ps| == 1 then Some(ps[0])
      else if |ps| > 1 then Some(ps[1])
      else None
  }

  /** `[_parse_mail(e) for e in fields]`: fails when any field does. */
  function ParseAddresses(fields: seq<AddressField>): (r: Option<seq<string>>)
    ensures r.Some? ==> |r.value| == |fields|
    ensures r.Some? ==> forall k :: 0 <= k < |fields| ==> ParseAddress(fields[k]) == Some(r.value[k])
    ensures r.None? <==> exists k :: 0 <= k < |fields| && ParseAddress(fields[k]).None?
  {
    if fields == [] then Some([])
    else match (ParseAddress(fields[0]), ParseAddresses(fields[1..]))
      case (Some(a), Some(rest)) =>
        assert forall k :: 1 <= k < |fields| ==> fields[k] == fields[1..][k - 1];
        Some([a] + rest)
      case (None, _) => None
      case (_, None) =>
        var k :| 0 <= k < |fields[1..]| && ParseAddress(fields[1..][k]).None?;
        assert fields[k + 1] == fields[1..][k];
        None
  }

  /** A MIME part as `mailparser` lists it, with the payload already decoded. */
  datatype RawAttachment = RawAttachment(
    filename: string,
    mimeType: string,
    disposition: string,
    contentId: string,
    content: seq<byte>)

  /** `content-id` with every '<' and '>' removed. */
  function BareContentId(cid: string): (r: string)
    ensures '<' !in r && '>' !in r
    ensures '<' !in cid && '>' !in cid ==> r == cid
  {
    ReplaceChar(ReplaceChar(cid, '<', ""), '>', "")
  }

  predicate IsInline(a: RawAttachment) {
    StartsWith(a.disposition, "inline;")
  }

  /** The inline-image filter of `_parse_msg`: an attachment is dropped exactly when it is
      inline, its content id is not referenced by the html, and the plain body has no
      `[image: name]` placeholder for it. */
  predicate KeepAttachment(a: RawAttachment, body: string, htmlBody: string) {
    !(IsInline(a) && !Contains(htmlBody, BareContentId(a.contentId))
      && !Contains(body, "[image: " + a.filename + "]"))
  }

  function ToAttachment(a: RawAttachment): Attachment {
    Attachment(a.mimeType, a.content, a.filename)
  }

  /** The attachments `_parse_msg` keeps, converted, in order. */
  function KeptAttachments(raws: seq<RawAttachment>, body: string, htmlBody: string): (r: seq<Attachment>)
    ensures |r| <= |raws|
    ensures forall a :: a in raws && KeepAttachment(a, body, htmlBody) ==> ToAttachment(a) in r
    ensures forall x :: x in r ==> exists a :: a in raws && KeepAttachment(a, body, htmlBody) && x == ToAttachment(a)
  {
    if raws == [] then []
    else
      var rest := KeptAttachments(raws[1..], body, htmlBody);
      assert forall a :: a in raws <==> a == raws[0] || a in raws[1..];
      (if KeepAttachment(raws[0], body, htmlBody) then [ToAttachment(raws[0])] else []) + rest
  }

  /** Attachments that are not inline are never dropped. */
  lemma NonInlineKept(raws: seq<RawAttachment>, body: string, htmlBody: string, a: RawAttachment)
    requires a in raws && !IsInline(a)
    ensures ToAttachment(a) in KeptAttachments(raws, body, htmlBody)
  {
  }

  const ReplyPrefix: string := "Re: "

  /** The subject rule of `reply_to_thread`: "Re: " is added unless already there. */
  function ReplySubject(subject: string): (r: string)
    ensures StartsWith(r, ReplyPrefix)
    ensures r == subject || r == ReplyPrefix + subject
    ensures StartsWith(subject, ReplyPrefix) <==> r == subject
  {
    if StartsWith(subject, ReplyPrefix) then subject
    else
      assert (ReplyPrefix + subject)[..4] == ReplyPrefix;
      ReplyPrefix + subject
  }

  lemma ReplySubjectIdempotent(subject: string)
    ensures ReplySubject(ReplySubject(subject)) == ReplySubject(subject)
  {
  }

  /** `reply_to_thread`'s content: asserts no subject was set, then sets the reply subject. */
  function ReplyContent(content: MsgContent, threadSubject: string): (r: MsgContent)
    requires content.subject.None?
    ensures r.subject.Some? && StartsWith(r.subject.value, ReplyPrefix)
    ensures r.subject == Some(ReplySubject(threadSubject))
    ensures r.body == content.body && r.htmlBody == content.htmlBody && r.attachments == content.attachments
  {
    WithSubject(content, ReplySubject(threadSubject))
  }

  datatype Header = Header(name: string, value: string)

  /** The value of the last header named `name` (compared lower-cased), if any. */
  function LastHeader(headers: seq<Header>, name: string): (r: Option<string>)
    ensures r.Some? <==> exists k :: 0 <= k < |headers| && Lower(headers[k].name) == name
    ensures r.Some? ==> exists k :: 0 <= k < |headers| && Lower(headers[k].name) == name && headers[k].value == r.value &&
                          forall j :: k < j < |headers| ==> Lower(headers[j].name) != name
  {
    if headers == [] then None
    else
      var last := headers[|headers| - 1];
      var init := headers[..|headers| - 1];
      assert forall k :: 0 <= k < |init| ==> init[k] == headers[k];
      if Lower(last.name) == name then Some(last.value)
      else
        var r := LastHeader(init, name);
        assert r.Some? ==> exists k :: 0 <= k < |init| && Lower(init[k].name) == name && init[k].value == r.value &&
                            forall j :: k < j < |headers| ==> Lower(headers[j].name) != name;
        r
  }

  /** What `_get_data_from_thread` extracts: the subject, and the Message-ID used as both
      In-Reply-To and References. */
  datatype ThreadData = ThreadData(subject: Option<string>, inReplyTo: Option<string>, references: Option<string>)

  /** `_get_data_from_thread`'s header loop over the first message's headers. */
  method ScanHeaders(headers: seq<Header>) returns (d: ThreadData)
    ensures d.subject == LastHeader(headers, "subject")
    ensures d.inReplyTo == LastHeader(headers, "message-id") && d.references == d.inReplyTo
  {
    d := ThreadData(None, None, None);
    var i := 0;
    while i < |headers|
      invariant 0 <= i <= |headers|
      invariant d.subject == LastHeader(headers[..i], "subject")
      invariant d.inReplyTo == LastHeader(headers[..i], "message-id") && d.references == d.inReplyTo
    {
      var h := headers[i];
      var name := Lower(h.name);
      assert headers[..i + 1][..i] == headers[..i];
      if name == "subject" {
        d := d.(subject := Some(h.value));
      }
      if name == "message-id" {
        d := d.(inReplyTo := Some(h.value), references := Some(h.value));
      }
      i := i + 1;
    }
    assert headers[..i] == headers;
  }

  /** The headers `_build_email` and `reply_to_thread` put on an outgoing mail. */
  datatype OutgoingHeaders = OutgoingHeaders(
    to: string, cc: string, from: string, subject: Option<string>,
    references: Option<string>, inReplyTo: Option<string>)

  const AddressSeparator: string := ", "

  /** The `from` header: `name<address>` when a display name is configured. */
  function FromHeader(emailName: Option<string>, emailId: string): (r: string)
    ensures emailName.None? ==> r == emailId
    ensures emailName.Some? ==> EndsWith(r, "<" + emailId + ">")
    ensures emailName.Some? ==> r == emailName.value + "<" + emailId + ">"
  {
    match emailName
    case None => emailId
    case Some(n) =>
      var r := n + "<" + emailId + ">";
      assert r[|r| - |"<" + emailId + ">"|..] == "<" + emailId + ">";
      r
  }

  /** The address of a `from` header: between the first '<' and a closing '>', or the
      whole header. */
  function FromAddress(h: string): string {
    match FirstIndexOfChar(h, '<')
    case None => h
    case Some(i) => if |h| > i + 1 && h[|h| - 1] == '>' then h[i + 1..|h| - 1] else h
  }

  /** The address can be read back from the `from` header when the name has no '<' and
      the address has none either. */
  lemma FromHeaderAddress(emailName: Option<string>, emailId: string)
    requires '<' !in emailId
    requires emailName.Some? ==> '<' !in emailName.value
    ensures FromAddress(FromHeader(emailName, emailId)) == emailId
  {
    if emailName.Some? {
      var n := emailName.value;
      var h := n + "<" + emailId + ">";
      assert h[|n|] == '<' && h[..|n|] == n;
      FirstIndexOfCharAt(h, '<', |n|);
      assert h[|n| + 1..|h| - 1] == emailId;
    }
  }

  /** `_build_email`'s headers, plus the thread headers of a reply. */
  function BuildHeaders(content: MsgContent, to: seq<string>, cc: seq<string>,
                        emailName: Option<string>, emailId: string, thread: Option<ThreadData>): (r: OutgoingHeaders)
    ensures r.to == Join(to, AddressSeparator) && r.cc == Join(cc, AddressSeparator)
    ensures r.from == FromHeader(emailName, emailId) && r.subject == content.subject
    ensures thread.None? ==> r.references.None? && r.inReplyTo.None?
    ensures thread.Some? ==> r.references == thread.value.references && r.inReplyTo == thread.value.inReplyTo
  {
    OutgoingHeaders(
      Join(to, AddressSeparator), Join(cc, AddressSeparator), FromHeader(emailName, emailId), content.subject,
      if thread.Some? then thread.value.references else None,
      if thread.Some? then thread.value.inReplyTo else None)
  }

  /** The `KeyError` `reply_to_thread` raises on a thread header it reads but
      `_get_data_from_thread` did not find. */
  datatype ReplyFailure = MissingThreadHeader(key: string)

  /** `reply_to_thread` once the thread's headers are read: the subject is read first,
      then References, then In-Reply-To; a missing one raises. */
  function ReplyToThread(content: MsgContent, data: ThreadData, to: seq<string>, cc: seq<string>,
                         emailName: Option<string>, emailId: string): (r: Result<(MsgContent, OutgoingHeaders), ReplyFailure>)
    requires content.subject.None?
    ensures r.Err? <==> data.subject.None? || data.references.None? || data.inReplyTo.None?
    ensures data.subject.None? ==> r == Err(MissingThreadHeader("subject"))
    ensures data.subject.Some? && data.references.None? ==> r == Err(MissingThreadHeader("References"))
    ensures r.Ok? ==> r.value.0 == ReplyContent(content, data.subject.value)
    ensures r.Ok? ==> r.value.1.subject == Some(ReplySubject(data.subject.value))
    ensures r.Ok? ==> r.value.1.references == data.references && r.value.1.inReplyTo == data.inReplyTo
    ensures r.Ok? ==> r.value.1.to == Join(to, AddressSeparator) && r.value.1.cc == Join(cc, AddressSeparator)
  {
    if data.subject.None? then Err(MissingThreadHeader("subject"))
    else if data.references.None? then Err(MissingThreadHeader("References"))
    else if data.inReplyTo.None? then Err(MissingThreadHeader("In-Reply-To"))
    else
      var reply := ReplyContent(content, data.subject.value);
      Ok((reply, BuildHeaders(reply, to, cc, emailName, emailId, Some(data))))
  }

  /** Replying in a thread whose subject already starts with "Re: " keeps that subject,
      and replying to one's own reply does not stack the prefix. */
  lemma ReplyKeepsReplySubject(content: MsgContent, data: ThreadData, to: seq<string>, cc: seq<string>,
                               emailName: Option<string>, emailId: string)
    requires content.subject.None?
    requires data.subject.Some? && data.references.Some? && data.inReplyTo.Some?
    ensures var r := ReplyToThread(content, data, to, cc, emailName, emailId);
            r.Ok? &&
            (StartsWith(data.subject.value, ReplyPrefix) ==> r.value.1.subject == data.subject) &&
            ReplySubject(r.value.1.subject.value) == r.value.1.subject.value
  {
    ReplySubjectIdempotent(data.subject.value);
  }

  /** A thread whose first message carries a subject and a Message-ID can be replied
      to: the headers `ScanHeaders` reads are all present. */
  lemma ScannedThreadReplies(headers: seq<Header>, content: MsgContent, to: seq<string>, cc: seq<string>,
                             emailName: Option<string>, emailId: string)
    requires content.subject.None?
    ensures var data := ThreadData(LastHeader(headers, "subject"), LastHeader(headers, "message-id"),
                                   LastHeader(headers, "message-id"));
            ReplyToThread(content, data, to, cc, emailName, emailId).Ok? <==>
              (exists k :: 0 <= k < |headers| && Lower(headers[k].name) == "subject") &&
              (exists k :: 0 <= k < |headers| && Lower(headers[k].name) == "message-id")
  {
  }

  /** Every element but the first gets a leading space. */
  function SpaceAfterFirst(xs: seq<string>): (r: seq<string>)
    ensures |r| == |xs|
    ensures forall k :: 0 <= k < |xs| ==> r[k] == (if k == 0 then xs[k] else " " + xs[k])
  {
    seq(|xs|, k requires 0 <= k < |xs| => if k == 0 then xs[k] else " " + xs[k])
  }

  lemma {:induction false} JoinPrependFirst(x: string, rest: seq<string>, sep: string, p: string)
    ensures p + Join([x] + rest, sep) == Join([p + x] + rest, sep)
  {
    assert ([x] + rest)[1..] == rest && ([p + x] + rest)[1..] == rest;
  }

  lemma SpaceAfterFirstTail(xs: seq<string>)
    requires |xs| > 1
    ensures SpaceAfterFirst(xs)[1..] == [" " + xs[1]] + SpaceAfterFirst(xs[1..])[1..]
    ensures SpaceAfterFirst(xs[1..]) == [xs[1]] + SpaceAfterFirst(xs[1..])[1..]
    ensures SpaceAfterFirst(xs)[0] == xs[0]
  {
    var st := SpaceAfterFirst(xs[1..]);
    assert st[0] == xs[1];
  }

  /** Joining with ", " is joining with "," after putting a space before every later element. */
  lemma {:induction false} JoinCommaSpace(xs: seq<string>)
    requires |xs| >= 1
    ensures Join(xs, AddressSeparator) == Join(SpaceAfterFirst(xs), ",")
  {
    if |xs| > 1 {
      var tail := xs[1..];
      JoinCommaSpace(tail);
      var st := SpaceAfterFirst(tail);
      var sx := SpaceAfterFirst(xs);
      var j := Join(st, ",");
      SpaceAfterFirstTail(xs);
      JoinPrependFirst(tail[0], st[1..], ",", " ");
      assert Join(sx, ",") == xs[0] + "," + (" " + j);
      assert Join(xs, AddressSeparator) == xs[0] + ", " + j;
    }
  }

  /** Reading an address header: split at ',' and strip each piece. */
  function ParseAddressHeader(h: string): (r: seq<string>)
    ensures |r| == |SplitOn(h, ',')| >= 1
    ensures forall k :: 0 <= k < |r| ==> r[k] == Strip(SplitOn(h, ',')[k])
  {
    var pieces := SplitOn(h, ',');
    seq(|pieces|, k requires 0 <= k < |pieces| => Strip(pieces[k]))
  }

  /** An address that survives stripping and splitting: no ',' and no surrounding space. */
  predicate IsPlainAddress(x: string) {
    ',' !in x && (x != [] ==> !IsSpace(x[0]) && !IsSpace(x[|x| - 1]))
  }

  lemma StripPlain(x: string)
    requires IsPlainAddress(x)
    ensures Strip(x) == x && Strip(" " + x) == x
  {
    assert TrimStart(x) == x;
    assert TrimEnd(x) == x;
    var y := " " + x;
    assert y[1..] == x && IsSpace(y[0]);
    assert TrimStart(y) == TrimStart(x);
  }

  /** Each spaced piece is comma-free and strips back to its address. */
  lemma SpacedPiece(xs: seq<string>, k: int)
    requires 0 <= k < |xs| && IsPlainAddress(xs[k])
    ensures ',' !in SpaceAfterFirst(xs)[k]
    ensures Strip(SpaceAfterFirst(xs)[k]) == xs[k]
  {
    var x := xs[k];
    var y := SpaceAfterFirst(xs)[k];
    assert y == if k == 0 then x else " " + x;
    StripPlain(x);
    assert ',' !in " " + x;
  }

  /** The `to`/`cc` header lists the recipients faithfully: reading it back gives the list. */
  lemma AddressHeaderRoundTrip(xs: seq<string>)
    requires |xs| >= 1
    requires forall k :: 0 <= k < |xs| ==> IsPlainAddress(xs[k])
    ensures ParseAddressHeader(Join(xs, AddressSeparator)) == xs
  {
    JoinCommaSpace(xs);
    var sx := SpaceAfterFirst(xs);
    forall k | 0 <= k < |sx| ensures ',' !in sx[k] {
      SpacedPiece(xs, k);
    }
    SplitJoin(sx, ',');
    var r := ParseAddressHeader(Join(sx, ","));
    forall k | 0 <= k < |xs| ensures r[k] == xs[k] {
      SpacedPiece(xs, k);
    }
  }

  /** `EMAIL_SCOPES` (app/prelude.py). */
  const EmailScopes: seq<string> := [
    "https://www.googleapis.com/auth/gmail.readonly",
    "https://www.googleapis.com/auth/gmail.compose",
    "https://www.googleapis.com/auth/gmail.send"
  ]

  /** The scope check of `get_access_token`: the required scopes absent from the
      space-separated grant, in order. */
  function MissingScopes(granted: string): (r: seq<string>)
    ensures forall x :: x in r <==> x in EmailScopes && x !in SplitOn(granted, ' ')
  {
    Filter(s => s !in SplitOn(granted, ' '), EmailScopes)
  }

  /** What the OAuth exchange produced: failures of the two calls, or the raw token. */
  datatype Exchange =
    | CodeRejected
    | EmailLookupFailed
    | Exchanged(accessToken: string, refreshToken: string, expiresAt: int, scope: string, email: string)

  datatype TokenError = ExchangeFailed | ScopesMissing(missing: seq<string>)

  /** `GoogleAuth.get_access_token`, given the result of the exchange. */
  function GetAccessToken(ex: Exchange): (r: Result<Token, TokenError>)
    ensures r.Ok? <==> ex.Exchanged? && MissingScopes(ex.scope) == []
    ensures r.Ok? ==> r.value == Token(ex.accessToken, ex.refreshToken, ex.email, ex.expiresAt)
    ensures r.Err? && ex.Exchanged? ==> r.error == ScopesMissing(MissingScopes(ex.scope))
  {
    match ex
    case CodeRejected => Err(ExchangeFailed)
    case EmailLookupFailed => Err(ExchangeFailed)
    case Exchanged(access, refresh, expiresAt, scope, email) =>
      var missing := MissingScopes(scope);
      if missing != [] then Err(ScopesMissing(missing))
      else Ok(Token(access, refresh, email, expiresAt))
  }

  lemma ScopeHasNoSpace(s: string)
    requires s in EmailScopes
    ensures ' ' !in s
  {
  }

  /** A grant listing exactly the required scopes, space-separated, passes the check. */
  lemma FullGrantPasses(granted: string)
    requires granted == Join(EmailScopes, " ")
    ensures MissingScopes(granted) == []
  {
    forall k | 0 <= k < |EmailScopes| ensures ' ' !in EmailScopes[k] {
      ScopeHasNoSpace(EmailScopes[k]);
    }
    SplitJoin(EmailScopes, ' ');
    assert forall x :: x in EmailScopes ==> x in SplitOn(granted, ' ');
  }
}
