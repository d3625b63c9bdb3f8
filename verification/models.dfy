/** The records of app/models.py: attachments, message contents, OAuth tokens and
    the user record with its pydantic refinement `LoggedInUser`. Datetimes are
    integer timestamps. */
module Models {
  import opened Wrappers
  import opened Strings

  newtype byte = b: int | 0 <= b < 256

  datatype AttachmentType = Image | Audio | Video | Unknown

  /** The MIME main-type word each known kind is recognised by. */
  function KindPrefix(t: AttachmentType): string {
    match t
    case Image => "image"
    case Audio => "audio"
    case Video => "video"
    case Unknown => ""
  }

  /** `AttachmentType.from_mime_type`: prefix tests in the order image, video, audio. */
  function FromMimeType(mime: string): (r: AttachmentType)
    ensures r != Unknown ==> StartsWith(mime, KindPrefix(r))
    ensures r == Unknown <==>
              !StartsWith(mime, "image") && !StartsWith(mime, "video") && !StartsWith(mime, "audio")
  {
    if StartsWith(mime, "image") then Image
    else if StartsWith(mime, "video") then Video
    else if StartsWith(mime, "audio") then Audio
    else Unknown
  }

  /** Any MIME type that starts with a kind's word is classified as that kind; the three
      words are pairwise not prefixes of each other, so the test order does not matter. */
  lemma FromMimeTypeOfPrefix(t: AttachmentType, rest: string)
    requires t != Unknown
    ensures FromMimeType(KindPrefix(t) + rest) == t
  {
    var m := KindPrefix(t) + rest;
    assert m[..5] == KindPrefix(t);
    assert |KindPrefix(t)| == 5;
  }

  datatype Attachment = Attachment(mimeType: string, content: seq<byte>, name: string)

  /** `mime_type.split("/", 1)[0]`: everything before the first '/'. */
  function MainType(a: Attachment): (r: string)
    ensures '/' !in r
    ensures StartsWith(a.mimeType, r)
    ensures '/' !in a.mimeType ==> r == a.mimeType
  {
    match FirstIndexOfChar(a.mimeType, '/')
    case None => a.mimeType
    case Some(i) => a.mimeType[..i]
  }

  /** `mime_type.split("/", 1)[1]`: everything after the first '/'; the index raises
      when there is no '/'. */
  function SubType(a: Attachment): (r: Option<string>)
    ensures r.None? <==> '/' !in a.mimeType
    ensures r.Some? ==> |r.value| < |a.mimeType| && EndsWith(a.mimeType, r.value)
  {
    match FirstIndexOfChar(a.mimeType, '/')
    case None => None
    case Some(i) => Some(a.mimeType[i + 1..])
  }

  /** A MIME type with a '/' is its main type, '/', and its sub type. */
  lemma MainSubType(a: Attachment)
    requires '/' in a.mimeType
    ensures MainType(a) + "/" + SubType(a).value == a.mimeType
  {
    var i := FirstIndexOfChar(a.mimeType, '/').value;
    assert a.mimeType == a.mimeType[..i] + "/" + a.mimeType[i + 1..];
  }

  datatype MsgContent = MsgContent(
    body: string,
    htmlBody: string,
    attachments: seq<Attachment>,
    subject: Option<string>)

  /** `MsgContent.with_subject`: a copy carrying the given subject. */
  function WithSubject(m: MsgContent, subject: string): (r: MsgContent)
    ensures r.subject == Some(subject)
    ensures r.body == m.body && r.htmlBody == m.htmlBody && r.attachments == m.attachments
  {
    m.(subject := Some(subject))
  }

  /** Setting a subject twice keeps only the second; setting it back restores the copy. */
  lemma WithSubjectOverrides(m: MsgContent, s1: string, s2: string)
    ensures WithSubject(WithSubject(m, s1), s2) == WithSubject(m, s2)
    ensures m.subject == Some(s1) ==> WithSubject(m, s1) == m
  {
  }

  datatype AuthState = LoggedOut | WaitingForToken | LoggedIn

  /** An OAuth token; `expiry` is a timestamp, `raw` is not modelled. */
  datatype Token = Token(accessToken: string, refreshToken: string, email: string, expiry: int)

  /** `Token.is_expired`, with the clock reading passed in. */
  predicate IsExpired(t: Token, now: int) {
    now > t.expiry
  }

  /** Once expired, a token stays expired; before its expiry instant it is live. */
  lemma ExpiryMonotone(t: Token, now: int, later: int)
    requires now <= later
    ensures IsExpired(t, now) ==> IsExpired(t, later)
    ensures !IsExpired(t, t.expiry)
  {
  }

  datatype User = User(
    matrixId: string,
    emailName: Option<string>,
    lastMailId: Option<string>,
    authState: AuthState,
    token: Option<Token>,
    emailAddress: Option<string>)

  /** `User(matrix_id=...)`: every other field at its default (`email_name` is the
      configured default name). */
  function DefaultUser(matrixId: string, defaultEmailName: Option<string>): (r: User)
    ensures r.matrixId == matrixId && r.authState == LoggedOut
    ensures r.token.None? && r.emailAddress.None? && r.lastMailId.None?
  {
    User(matrixId, defaultEmailName, None, LoggedOut, None, None)
  }

  /** The `email_address` validator `populate_s`, which pydantic runs whenever a
      `User` is built or parsed: a missing address is taken from the token. */
  function Validate(u: User): (r: User)
    ensures u.emailAddress.Some? ==> r.emailAddress == u.emailAddress
    ensures u.emailAddress.None? && u.token.Some? ==> r.emailAddress == Some(u.token.value.email)
    ensures r.emailAddress.Some? <==> u.emailAddress.Some? || u.token.Some?
    ensures r.matrixId == u.matrixId && r.emailName == u.emailName && r.lastMailId == u.lastMailId
    ensures r.authState == u.authState && r.token == u.token
  {
    if u.emailAddress.None? && u.token.Some? then u.(emailAddress := Some(u.token.value.email))
    else u
  }

  lemma ValidateIdempotent(u: User)
    ensures Validate(Validate(u)) == Validate(u)
  {
  }

  /** The fields `LoggedInUser` narrows: state `logged_in`, a token and an address. */
  predicate IsLoggedInUser(u: User) {
    u.authState == LoggedIn && u.token.Some? && u.emailAddress.Some?
  }

  type LoggedInUser = u: User | IsLoggedInUser(u)
    witness User("", None, None, LoggedIn, Some(Token("", "", "", 0)), Some(""))

  /** Why `LoggedInUser.parse_obj` rejects a record. */
  datatype ValidationError = MissingToken | MissingEmailAddress

  /** `User.narrow`: a logged-in user is re-parsed as `LoggedInUser`, which raises when
      the token or the (validated) address is missing; any other user is returned as is. */
  function Narrow(u: User): (r: Result<User, ValidationError>)
    ensures u.authState != LoggedIn ==> r == Ok(u)
    ensures u.authState == LoggedIn ==> (r.Ok? <==> u.token.Some?)
    ensures r.Ok? ==> (r.value.authState == LoggedIn <==> IsLoggedInUser(r.value))
    ensures r.Ok? ==> r.value.matrixId == u.matrixId && r.value.authState == u.authState
    ensures u.authState == LoggedIn && r.Ok? ==> r.value == Validate(u)
    ensures r == Err(MissingToken) <==> u.authState == LoggedIn && u.token.None?
  {
    if u.authState != LoggedIn then Ok(u)
    else
      var v := Validate(u);
      if v.token.None? then Err(MissingToken)
      else if v.emailAddress.None? then Err(MissingEmailAddress)
      else Ok(v)
  }

  /** `User.logged_in`: state logged_in with the given token, and the override address
      or else the token's. */
  function LoggedInWith(u: User, token: Token, emailOverride: Option<string>): (r: LoggedInUser)
    ensures r.token == Some(token)
    ensures r.emailAddress == Some(emailOverride.GetOr(token.email))
    ensures r.matrixId == u.matrixId && r.emailName == u.emailName && r.lastMailId == u.lastMailId
  {
    Validate(u.(emailAddress := emailOverride, token := Some(token), authState := LoggedIn))
  }

  /** `LoggedInUser.logged_out`: token and address cleared, state logged_out. */
  function LoggedOutOf(u: LoggedInUser): (r: User)
    ensures r.authState == LoggedOut && r.token.None? && r.emailAddress.None?
    ensures r.matrixId == u.matrixId && r.emailName == u.emailName && r.lastMailId == u.lastMailId
  {
    Validate(u).(emailAddress := None, token := None, authState := LoggedOut)
  }

  /** Narrowing accepts both transition results unchanged: a logged-in result narrows to
      itself, and a logged-out one is not a `LoggedInUser`. */
  lemma NarrowTransitions(u: User, token: Token, emailOverride: Option<string>, v: LoggedInUser)
    ensures Narrow(LoggedInWith(u, token, emailOverride)) == Ok(LoggedInWith(u, token, emailOverride))
    ensures Narrow(LoggedOutOf(v)) == Ok(LoggedOutOf(v))
    ensures !IsLoggedInUser(LoggedOutOf(v))
  {
  }

  /** Logging out and back in with the same token restores a user whose address came
      from that token. */
  lemma LogoutLoginRestores(v: LoggedInUser)
    requires v.emailAddress == Some(v.token.value.email)
    ensures LoggedInWith(LoggedOutOf(v), v.token.value, None) == v
  {
  }
}
