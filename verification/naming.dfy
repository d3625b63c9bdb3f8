/** The identity codec of app/utils.py: email addresses <-> virtual-account ids
    ("mxids") and thread ids <-> room aliases. The global configuration the
    Python module reads is passed in as a `Config`. */
module Naming {
  import opened Wrappers
  import opened Strings
  import opened EmailSyntax

  /** `CONFIG.NAMESPACE_PREFIX` and `CONFIG.HOMESERVER_NAME`. */
  datatype Config = Config(prefix: string, homeserver: string)

  /** The placeholder that stands for '@' inside a localpart. */
  const EmailKeyword: string := "_at_"

  /** `email_sanitize`: every '@' becomes the placeholder. */
  function Sanitize(email: string): (r: string)
    ensures '@' !in r
    ensures '@' !in email ==> r == email
  {
    ReplaceChar(email, '@', EmailKeyword)
  }

  /** `email_desanitize`: the LAST placeholder becomes '@'. `rindex` raises when
      there is none; that is `None` here. */
  function Desanitize(s: string): (r: Option<string>)
    ensures r.None? <==> forall j :: !OccursAt(s, EmailKeyword, j)
    ensures r.Some? ==> |r.value| == |s| - 3
    ensures r.Some? ==> exists i :: OccursAt(s, EmailKeyword, i) &&
                          (forall j :: i < j ==> !OccursAt(s, EmailKeyword, j)) &&
                          r.value == s[..i] + "@" + s[i + |EmailKeyword|..]
  {
    match LastIndexOf(s, EmailKeyword)
    case None => None
    case Some(i) => Some(s[..i] + "@" + s[i + |EmailKeyword|..])
  }

  /** The addresses the codec round-trips: exactly one '@', and no '_' after it. */
  predicate Sanitizable(email: string) {
    match FirstIndexOfChar(email, '@')
    case None => false
    case Some(i) => '@' !in email[i + 1..] && '_' !in email[i + 1..]
  }

  /** With no '_' in `tail`, the placeholder written between `head` and `tail` is the
      last one, whatever `head` holds. */
  lemma LastKeywordAt(head: string, tail: string)
    requires '_' !in tail
    ensures LastIndexOf(head + EmailKeyword + tail, EmailKeyword) == Some(|head|)
  {
    var s := head + EmailKeyword + tail;
    assert s[|head|..|head| + 4] == EmailKeyword;
    assert OccursAt(s, EmailKeyword, |head|);
    forall j | |head| < j
      ensures !OccursAt(s, EmailKeyword, j)
    {
      if j + 4 <= |s| {
        assert s[j + 3] == tail[j + 3 - |head| - 4];
        assert s[j + 3] != '_';
        assert s[j..j + 4][3] != EmailKeyword[3];
      }
    }
  }

  lemma SanitizeSplit(email: string, i: nat)
    requires i < |email| && email[i] == '@' && '@' !in email[..i] && '@' !in email[i + 1..]
    ensures Sanitize(email) == email[..i] + EmailKeyword + email[i + 1..]
  {
    assert email == email[..i] + "@" + email[i + 1..];
    ReplaceCharAppend(email[..i] + "@", email[i + 1..], '@', EmailKeyword);
    ReplaceCharAppend(email[..i], "@", '@', EmailKeyword);
  }

  /** `email_desanitize(email_sanitize(e)) == e` for every address with one '@' and
      no '_' in its domain. */
  lemma DesanitizeSanitize(email: string)
    requires Sanitizable(email)
    ensures Desanitize(Sanitize(email)) == Some(email)
  {
    var i := FirstIndexOfChar(email, '@').value;
    SanitizeSplit(email, i);
    var head, tail := email[..i], email[i + 1..];
    LastKeywordAt(head, tail);
    var s := head + EmailKeyword + tail;
    assert s[..i] == head && s[i + 4..] == tail;
    assert head + "@" + tail == email;
  }

  /** Consequently sanitizing is injective on those addresses. */
  lemma SanitizeInjective(a: string, b: string)
    requires Sanitizable(a) && Sanitizable(b)
    requires Sanitize(a) == Sanitize(b)
    ensures a == b
  {
    DesanitizeSanitize(a);
    DesanitizeSanitize(b);
  }

  /** A domain holds neither '@' nor '_'. */
  lemma DomainHasNoAtOrUnderscore(d: string)
    requires IsDomain(d)
    ensures '@' !in d && '_' !in d
  {
    if '@' in d {
      DomainChars(d, '@');
    }
    if '_' in d {
      DomainChars(d, '_');
    }
  }

  /** Lower-casing neither creates nor removes '@' or '_'. */
  lemma LowerKeepsSymbols(email: string, a: nat, b: nat)
    requires a <= b <= |email|
    ensures '@' in email[a..b] <==> '@' in Lower(email)[a..b]
    ensures '_' in email[a..b] <==> '_' in Lower(email)[a..b]
  {
    var l := Lower(email);
    forall k | a <= k < b
      ensures email[k] == '@' <==> l[k] == '@'
      ensures email[k] == '_' <==> l[k] == '_'
    {
      assert l[k] == LowerChar(email[k]);
    }
    assert forall k :: 0 <= k < b - a ==> email[a..b][k] == email[a + k] && l[a..b][k] == l[a + k];
  }

  /** Every address `is_valid_email` accepts is one the codec round-trips. */
  lemma ValidEmailSanitizable(email: string)
    requires IsValidEmail(email)
    ensures Sanitizable(email)
  {
    var i := AddrSpecSplit(Lower(email));
    LowerSplit(email, i);
    SanitizableAt(email, i);
  }

  /** The split facts of the lower-cased address hold of the address itself. */
  lemma LowerSplit(email: string, i: nat)
    requires var l := Lower(email);
             i < |l| && l[i] == '@' && '@' !in l[..i] && '@' !in l[i + 1..] && '_' !in l[i + 1..]
    ensures i < |email| && email[i] == '@' && '@' !in email[..i]
    ensures '@' !in email[i + 1..] && '_' !in email[i + 1..]
  {
    var l := Lower(email);
    assert email[i] == '@' by { assert LowerChar(email[i]) == '@'; }
    LowerKeepsSymbols(email, 0, i);
    LowerKeepsSymbols(email, i + 1, |email|);
    assert email[..i] == email[0..i] && l[..i] == l[0..i];
    assert email[i + 1..] == email[i + 1..|email|] && l[i + 1..] == l[i + 1..|l|];
  }

  /** An addr-spec has its only '@' at `i`, with no '_' after it. */
  lemma AddrSpecSplit(l: string) returns (i: nat)
    requires IsAddrSpec(l)
    ensures i < |l| && l[i] == '@' && '@' !in l[..i]
    ensures '@' !in l[i + 1..] && '_' !in l[i + 1..]
  {
    i := FirstIndexOfChar(l, '@').value;
    DomainHasNoAtOrUnderscore(l[i + 1..]);
  }

  lemma SanitizableAt(email: string, i: nat)
    requires i < |email| && email[i] == '@' && '@' !in email[..i]
    requires '@' !in email[i + 1..] && '_' !in email[i + 1..]
    ensures Sanitizable(email)
  {
    FirstIndexOfCharAt(email, '@', i);
  }

  /** `_generate_mxid`: `@<prefix><localpart>:<homeserver>`. */
  function Mxid(cfg: Config, localpart: string): (r: string)
    ensures IsBotMxid(cfg, r)
    ensures |r| > 0 && r[0] == '@'
  {
    "@" + cfg.prefix + localpart + ":" + cfg.homeserver
  }

  /** `generate_mxid`: the virtual account of an email address. */
  function GenerateMxid(cfg: Config, email: string): (r: string)
    ensures IsBotMxid(cfg, r)
  {
    Mxid(cfg, Sanitize(email))
  }

  /** `generate_alias`: `#<prefix><name>:<homeserver>`. */
  function GenerateAlias(cfg: Config, name: string): (r: string)
    ensures IsThreadAlias(cfg, r)
    ensures |r| > 0 && r[0] == '#'
  {
    "#" + cfg.prefix + name + ":" + cfg.homeserver
  }

  /** `is_bot_mxid`. */
  predicate IsBotMxid(cfg: Config, mxid: string) {
    StartsWith(mxid, "@" + cfg.prefix)
  }

  /** `is_thread_alias`. */
  predicate IsThreadAlias(cfg: Config, alias: string) {
    StartsWith(alias, "#" + cfg.prefix)
  }

  /** `x.replace(sigil, "", 1)[:-(len(homeserver) + 1)]` on an id that starts with `sigil`. */
  function StripSigilAndServer(cfg: Config, id: string): (r: string)
    requires |id| > 0
    ensures EndsWith(id, ":" + cfg.homeserver) && |id| >= |cfg.homeserver| + 2 ==>
              id == [id[0]] + r + ":" + cfg.homeserver
  {
    assert StartsWith(id, [id[0]]);
    var rest := ReplaceFirst(id, [id[0]], "");
    assert rest == id[1..];
    var r := DropLast(rest, |cfg.homeserver| + 1);
    assert |id| >= |cfg.homeserver| + 2 ==> rest == r + id[|id| - |cfg.homeserver| - 1..];
    assert id == [id[0]] + rest;
    r
  }

  /** `extract_mxid_localpart`: asserts the leading '@', drops it and the
      trailing `:<homeserver>`. */
  function ExtractMxidLocalpart(cfg: Config, mxid: string): (r: string)
    requires |mxid| > 0 && mxid[0] == '@'
    ensures EndsWith(mxid, ":" + cfg.homeserver) && |mxid| >= |cfg.homeserver| + 2 ==>
              mxid == "@" + r + ":" + cfg.homeserver
  {
    StripSigilAndServer(cfg, mxid)
  }

  /** `extract_alias_localpart`: the same on an alias with a leading '#'. */
  function ExtractAliasLocalpart(cfg: Config, alias: string): (r: string)
    requires |alias| > 0 && alias[0] == '#'
    ensures EndsWith(alias, ":" + cfg.homeserver) && |alias| >= |cfg.homeserver| + 2 ==>
              alias == "#" + r + ":" + cfg.homeserver
  {
    StripSigilAndServer(cfg, alias)
  }

  /** `extract_localpart`: dispatches on the sigil. */
  function ExtractLocalpart(cfg: Config, id: string): (r: string)
    requires |id| > 0 && (id[0] == '#' || id[0] == '@')
    ensures id[0] == '@' ==> r == ExtractMxidLocalpart(cfg, id)
    ensures id[0] == '#' ==> r == ExtractAliasLocalpart(cfg, id)
  {
    if id[0] == '@' then ExtractMxidLocalpart(cfg, id) else ExtractAliasLocalpart(cfg, id)
  }

  /** `extract_email`: localpart, first occurrence of the prefix removed, desanitized. */
  function ExtractEmail(cfg: Config, mxid: string): Option<string>
    requires |mxid| > 0 && mxid[0] == '@'
  {
    Desanitize(ReplaceFirst(ExtractMxidLocalpart(cfg, mxid), cfg.prefix, ""))
  }

  /** `extract_alias_thread`: removes the first `#<prefix>` and the trailing `:<homeserver>`. */
  function ExtractAliasThread(cfg: Config, alias: string): string {
    DropLast(ReplaceFirst(alias, "#" + cfg.prefix, ""), |cfg.homeserver| + 1)
  }

  /** `is_valid_email_mxid`: false without a placeholder in the localpart; otherwise the
      desanitized localpart (prefix included) must be a valid address. */
  function IsValidEmailMxid(cfg: Config, mxid: string): (r: bool)
    requires |mxid| > 0 && mxid[0] == '@'
    ensures !Contains(ExtractMxidLocalpart(cfg, mxid), EmailKeyword) ==> !r
    ensures r <==> (var e := Desanitize(ExtractMxidLocalpart(cfg, mxid)); e.Some? && IsValidEmail(e.value))
  {
    var localpart := ExtractMxidLocalpart(cfg, mxid);
    if !Contains(localpart, EmailKeyword) then false
    else IsValidEmail(Desanitize(localpart).value)
  }

  lemma MxidLocalpart(cfg: Config, localpart: string)
    ensures ExtractMxidLocalpart(cfg, Mxid(cfg, localpart)) == cfg.prefix + localpart
  {
    var m := Mxid(cfg, localpart);
    var r := ExtractMxidLocalpart(cfg, m);
    assert EndsWith(m, ":" + cfg.homeserver) by {
      assert m[|m| - |":" + cfg.homeserver|..] == ":" + cfg.homeserver;
    }
    assert "@" + r + ":" + cfg.homeserver == "@" + (cfg.prefix + localpart) + ":" + cfg.homeserver;
    assert r == (("@" + r + ":" + cfg.homeserver)[1..])[..|r|];
  }

  lemma AliasLocalpart(cfg: Config, name: string)
    ensures ExtractAliasLocalpart(cfg, GenerateAlias(cfg, name)) == cfg.prefix + name
  {
    var a := GenerateAlias(cfg, name);
    var r := ExtractAliasLocalpart(cfg, a);
    assert EndsWith(a, ":" + cfg.homeserver) by {
      assert a[|a| - |":" + cfg.homeserver|..] == ":" + cfg.homeserver;
    }
    assert "#" + r + ":" + cfg.homeserver == "#" + (cfg.prefix + name) + ":" + cfg.homeserver;
    assert r == (("#" + r + ":" + cfg.homeserver)[1..])[..|r|];
  }

  /** `extract_email(generate_mxid(e)) == e` for every address the codec round-trips. */
  lemma ExtractEmailGenerateMxid(cfg: Config, email: string)
    requires Sanitizable(email)
    ensures ExtractEmail(cfg, GenerateMxid(cfg, email)) == Some(email)
  {
    var s := Sanitize(email);
    var m := GenerateMxid(cfg, email);
    assert m == Mxid(cfg, s);
    MxidLocalpart(cfg, s);
    var lp := ExtractMxidLocalpart(cfg, m);
    assert lp == cfg.prefix + s;
    assert StartsWith(lp, cfg.prefix);
    assert lp[|cfg.prefix|..] == s;
    assert ReplaceFirst(lp, cfg.prefix, "") == s;
    DesanitizeSanitize(email);
  }

  /** `extract_alias_thread(generate_alias(n)) == n` for every name. */
  lemma ExtractAliasThreadGenerateAlias(cfg: Config, name: string)
    ensures ExtractAliasThread(cfg, GenerateAlias(cfg, name)) == name
  {
    var a := GenerateAlias(cfg, name);
    assert StartsWith(a, "#" + cfg.prefix);
    var rest := a[|"#" + cfg.prefix|..];
    assert rest == name + ":" + cfg.homeserver;
    assert rest[..|name|] == name;
  }
}
