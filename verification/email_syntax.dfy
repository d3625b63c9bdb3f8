/** The simplified `addr-spec` of section 3.4.1 of RFC 5322 that `is_valid_email`
    (app/utils.py) accepts: a dot-atom local part, one '@', and a domain of two or
    more hostname labels, all matched against the lower-cased address. */
module EmailSyntax {
  import opened Wrappers
  import opened Strings

  /** The `atext` characters of the local part, lower-case letters only. */
  predicate IsAtext(c: char) {
    ('a' <= c <= 'z') || ('0' <= c <= '9') || c in "!#$%&'*+/=?^_`{|}~-"
  }

  predicate IsLabelChar(c: char) {
    ('a' <= c <= 'z') || ('0' <= c <= '9') || c == '-'
  }

  /** `atom ("." atom)*`: non-empty atoms of atext separated by single dots. */
  predicate IsLocalPart(s: string) {
    && |s| > 0
    && s[0] != '.'
    && s[|s| - 1] != '.'
    && (forall i :: 0 <= i < |s| ==> IsAtext(s[i]) || s[i] == '.')
    && (forall i :: 0 <= i < |s| - 1 ==> s[i] == '.' ==> s[i + 1] != '.')
  }

  /** `[a-z0-9]([a-z0-9-]*[a-z0-9])?`: a label that neither starts nor ends with '-'. */
  predicate IsLabel(s: string) {
    && |s| > 0
    && s[0] != '-'
    && s[|s| - 1] != '-'
    && (forall i :: 0 <= i < |s| ==> IsLabelChar(s[i]))
  }

  /** `(label ".")+ label`. */
  predicate IsDomain(s: string) {
    var labels := SplitOn(s, '.');
    |labels| >= 2 && forall k :: 0 <= k < |labels| ==> IsLabel(labels[k])
  }

  /** Local part '@' domain, on an already lower-cased address. Neither part may
      contain '@', so the split is at the only '@'. */
  predicate IsAddrSpec(l: string) {
    match FirstIndexOfChar(l, '@')
    case None => false
    case Some(i) => IsLocalPart(l[..i]) && IsDomain(l[i + 1..])
  }

  /** `is_valid_email`: the lower-cased address is an addr-spec. */
  predicate IsValidEmail(email: string) {
    IsAddrSpec(Lower(email))
  }

  lemma InPiece(pieces: seq<string>, k: nat, x: char)
    requires k < |pieces| && x in pieces[k]
    ensures exists m :: 0 <= m < |pieces| && x in pieces[m]
  {
  }

  lemma InLaterPiece(pieces: seq<string>, head: string, tail: seq<string>, k: nat, x: char)
    requires pieces == [head] + tail && k < |tail| && x in tail[k]
    ensures exists m :: 0 <= m < |pieces| && x in pieces[m]
  {
    assert pieces[k + 1] == tail[k];
    InPiece(pieces, k + 1, x);
  }

  /** Every character of `s` is the separator or lies in one of the split pieces. */
  lemma {:induction false} SplitCovers(s: string, c: char, x: char)
    requires x in s && x != c
    ensures exists k :: 0 <= k < |SplitOn(s, c)| && x in SplitOn(s, c)[k]
    decreases |s|
  {
    var pieces := SplitOn(s, c);
    var fi := FirstIndexOfChar(s, c);
    if fi.None? {
      assert pieces == [s];
      InPiece(pieces, 0, x);
    } else {
      var i := fi.value;
      var rest := s[i + 1..];
      var tail := SplitOn(rest, c);
      assert pieces == [s[..i]] + tail;
      var j :| 0 <= j < |s| && s[j] == x;
      if j < i {
        assert s[..i][j] == x;
        InPiece(pieces, 0, x);
      } else {
        assert rest[j - i - 1] == x;
        SplitCovers(rest, c, x);
        var k :| 0 <= k < |tail| && x in tail[k];
        InLaterPiece(pieces, s[..i], tail, k, x);
      }
    }
  }

  /** A domain holds only label characters and dots: in particular no '@' and no '_'. */
  lemma DomainChars(s: string, x: char)
    requires IsDomain(s) && x in s
    ensures IsLabelChar(x) || x == '.'
  {
    if x != '.' {
      SplitCovers(s, '.', x);
      var k :| 0 <= k < |SplitOn(s, '.')| && x in SplitOn(s, '.')[k];
      var piece := SplitOn(s, '.')[k];
      var j :| 0 <= j < |piece| && piece[j] == x;
      assert IsLabel(piece);
    }
  }

  /** `is_valid_email` lower-cases first, so it cannot tell an address from its lower-case form. */
  lemma CaseInsensitive(email: string)
    ensures IsValidEmail(email) == IsValidEmail(Lower(email))
  {
    LowerIdempotent(email);
  }

  lemma SplitTwoLabels(s: string, i: nat)
    requires i < |s| && s[i] == '.' && '.' !in s[..i] && '.' !in s[i + 1..]
    ensures SplitOn(s, '.') == [s[..i], s[i + 1..]]
  {
    FirstIndexOfCharAt(s, '.', i);
    assert SplitOn(s, '.') == [s[..i]] + SplitOn(s[i + 1..], '.');
  }

  lemma TwoLabelDomain(d: string, i: nat)
    requires i < |d| && d[i] == '.' && '.' !in d[..i] && '.' !in d[i + 1..]
    requires IsLabel(d[..i]) && IsLabel(d[i + 1..])
    ensures IsDomain(d)
  {
    SplitTwoLabels(d, i);
  }

  lemma GmailDomain(d: string)
    requires d == "gmail.com"
    ensures IsDomain(d)
  {
    assert d[..5] == "gmail" && d[6..] == "com";
    TwoLabelDomain(d, 5);
  }

  lemma PmDomain(d: string)
    requires d == "pm.me"
    ensures IsDomain(d)
  {
    assert d[..2] == "pm" && d[3..] == "me";
    TwoLabelDomain(d, 2);
  }

  /** An address whose first '@' splits it into a local part and a domain. */
  lemma AddrSpecAt(l: string, i: nat)
    requires i < |l| && l[i] == '@' && '@' !in l[..i]
    ensures IsAddrSpec(l) <==> IsLocalPart(l[..i]) && IsDomain(l[i + 1..])
  {
    FirstIndexOfCharAt(l, '@', i);
  }

  /** A local part and a domain joined by '@' form an addr-spec. */
  lemma AddrSpecOf(local: string, d: string)
    requires IsLocalPart(local) && IsDomain(d) && '@' !in local
    ensures IsAddrSpec(local + "@" + d)
  {
    var l := local + "@" + d;
    assert l[|local|] == '@' && l[..|local|] == local && l[|local| + 1..] == d;
    AddrSpecAt(l, |local|);
  }

  lemma PlainAddressMatches(e: string)
    requires e == "a@gmail.com"
    ensures IsAddrSpec(e)
  {
    var local, d := e[..1], e[2..];
    assert local == "a" && d == "gmail.com" && e == local + "@" + d;
    AlnumLocalPart(local);
    GmailDomain(d);
    AddrSpecOf(local, d);
  }

  lemma SpacedAddressFails(e: string, d: string)
    requires (e == "b a@gmail.com" && d == "gmail.com") || (e == "b a@gmail" && d == "gmail")
    ensures !IsAddrSpec(e)
  {
    assert e == "b a@" + d;
    assert e[..3] == "b a" && e[3] == '@';
    assert !IsLocalPart(e[..3]) by { assert e[..3][1] == ' '; }
    AddrSpecAt(e, 3);
  }

  lemma AlnumLocalPart(s: string)
    requires |s| > 0 && forall i :: 0 <= i < |s| ==> ('a' <= s[i] <= 'z') || ('0' <= s[i] <= '9')
    ensures IsLocalPart(s)
  {
  }

  lemma MixedCaseMatches(l: string)
    requires l == "hk8128@pm.me"
    ensures IsAddrSpec(l)
  {
    assert l[..6] == "hk8128" && l[7..] == "pm.me";
    AlnumLocalPart(l[..6]);
    PmDomain(l[7..]);
    AddrSpecAt(l, 6);
  }

  lemma LowerOfLowerCase(e: string)
    requires forall i :: 0 <= i < |e| ==> !('A' <= e[i] <= 'Z')
    ensures Lower(e) == e
  {
  }

  lemma LowerMixedCase(e: string, l: string)
    requires e == "Hk8128@pm.me" && l == "hk8128@pm.me"
    ensures Lower(e) == l
  {
  }

  lemma ValidPlain(e: string)
    requires e == "a@gmail.com"
    ensures IsValidEmail(e)
  {
    LowerOfLowerCase(e);
    PlainAddressMatches(e);
  }

  lemma InvalidSpaced(e: string, d: string)
    requires (e == "b a@gmail.com" && d == "gmail.com") || (e == "b a@gmail" && d == "gmail")
    ensures !IsValidEmail(e)
  {
    LowerOfLowerCase(e);
    SpacedAddressFails(e, d);
  }

  lemma ValidMixedCase(e: string)
    requires e == "Hk8128@pm.me"
    ensures IsValidEmail(e)
  {
    LowerMixedCase(e, "hk8128@pm.me");
    MixedCaseMatches("hk8128@pm.me");
  }

  /** The examples checked in the `__main__` block of app/utils.py. */
  lemma Examples()
    ensures IsValidEmail("a@gmail.com")
    ensures !IsValidEmail("b a@gmail.com")
    ensures !IsValidEmail("b a@gmail")
    ensures IsValidEmail("Hk8128@pm.me")
  {
    ValidPlain("a@gmail.com");
    InvalidSpaced("b a@gmail.com", "gmail.com");
    InvalidSpaced("b a@gmail", "gmail");
    ValidMixedCase("Hk8128@pm.me");
  }
}
