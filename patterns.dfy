/**
  The three regular expressions of the extractor, each stated as a grammar
  predicate on the text of one whole match:

  - Pattern A (`_id_pattern1`), one named predicate per alternative, so that
    the rule "a plain `user@domain.tld` is not a handle" can be read off;
  - the keyword pattern (`_keyword_pattern`), as a predicate on one line;
  - Pattern B (`_id_pattern2`), as a relation between a matched profile URL
    and the group tuple that `findall` reports for it.

  Where in a longer text `findall` starts and stops a match (leftmost search,
  backtracking, the `\b` word boundaries) is not modelled here.
 */
module Patterns {
  import opened Wrappers
  import opened Text
  import opened MastodonIds

  // ---------------------------------------------------------------------
  // Character classes

  /** `[^\s(),:;#]`, the handle class of Pattern A; `@`, `.` and `/` belong to it. */
  predicate InHandleClass(c: char)
  {
    !IsSpace(c) && c != '(' && c != ')' && c != ',' && c != ':' && c != ';' && c != '#'
  }

  /** `[^\s():;#]`, the handle class with the comma allowed back in. */
  predicate InMentionDomainClass(c: char)
  {
    !IsSpace(c) && c != '(' && c != ')' && c != ':' && c != ';' && c != '#'
  }

  /** `[^\s(),:;#/]`, Pattern B's class: the handle class without `/`. */
  predicate InUrlClass(c: char)
  {
    InHandleClass(c) && c != '/'
  }

  predicate AllHandle(s: string)
  {
    forall i :: 0 <= i < |s| ==> InHandleClass(s[i])
  }

  predicate AllMentionDomain(s: string)
  {
    forall i :: 0 <= i < |s| ==> InMentionDomainClass(s[i])
  }

  predicate AllUrl(s: string)
  {
    forall i :: 0 <= i < |s| ==> InUrlClass(s[i])
  }

  /** Letters, digits, `.`, `_` and `-`: the characters of ordinary names. */
  predicate Plain(c: char)
  {
    ('a' <= c <= 'z') || ('A' <= c <= 'Z') || ('0' <= c <= '9') || c == '.' || c == '_' || c == '-'
  }

  lemma PlainIsUrl(s: string)
    requires forall i :: 0 <= i < |s| ==> Plain(s[i])
    ensures AllUrl(s) && AllHandle(s) && AllMentionDomain(s)
  {
  }

  // ---------------------------------------------------------------------
  // Pattern A, alternative by alternative. Each `...Parts(user, domain)`
  // says what the text on either side of the separating `@` must be.

  /** Alternative 1, `@[C1]+@[C2]+\.[C1]+`: a leading `@` and a dotted domain. */
  predicate MentionParts(user: string, domain: string)
  {
    && |user| > 0 && AllHandle(user)
    && exists j :: 0 < j < |domain| - 1 && domain[j] == '.'
                   && AllMentionDomain(domain[..j]) && AllHandle(domain[j + 1..])
  }

  predicate MentionForm(t: string)
  {
    && |t| > 0 && t[0] == '@'
    && exists k :: 1 <= k < |t| && t[k] == '@' && MentionParts(t[1..k], t[k + 1..])
  }

  /** Alternative 2, `[C1]+@[C1]+\.social`: the domain ends in `.social`. */
  predicate SocialSuffixParts(user: string, domain: string)
  {
    && |user| > 0 && AllHandle(user)
    && |domain| >= 8 && AllHandle(domain[..|domain| - 7])
    && WordAt(domain, |domain| - 7, ".social")
  }

  predicate SocialSuffixForm(t: string)
  {
    exists k :: 0 <= k < |t| && t[k] == '@' && SocialSuffixParts(t[..k], t[k + 1..])
  }

  /** Alternative 3, `[C1]+@social\.[C1]+`: the domain starts with `social.`. */
  predicate SocialPrefixParts(user: string, domain: string)
  {
    && |user| > 0 && AllHandle(user)
    && |domain| >= 8 && WordAt(domain, 0, "social.") && AllHandle(domain[7..])
  }

  predicate SocialPrefixForm(t: string)
  {
    exists k :: 0 <= k < |t| && t[k] == '@' && SocialPrefixParts(t[..k], t[k + 1..])
  }

  /** Alternative 4, `[C1]+@[C1]*mastodon[C1]+`: `mastodon` inside the domain, not at its end. */
  predicate MastodonParts(user: string, domain: string)
  {
    && |user| > 0 && AllHandle(user)
    && exists m :: 0 <= m && m + 8 < |domain| && WordAt(domain, m, "mastodon")
                   && AllHandle(domain[..m]) && AllHandle(domain[m + 8..])
  }

  predicate MastodonForm(t: string)
  {
    exists k :: 0 <= k < |t| && t[k] == '@' && MastodonParts(t[..k], t[k + 1..])
  }

  /** `t` is a whole match of Pattern A (matching ignores case). */
  predicate PatternA(t: string)
  {
    MentionForm(t) || SocialSuffixForm(t) || SocialPrefixForm(t) || MastodonForm(t)
  }

  // The tell-tale signs in a domain that set a handle apart from an e-mail address.

  predicate SocialSuffix(h: string)
  {
    |h| >= 8 && WordAt(h, |h| - 7, ".social")
  }

  predicate SocialPrefix(h: string)
  {
    |h| >= 8 && WordAt(h, 0, "social.")
  }

  predicate MastodonInside(h: string)
  {
    exists m :: 0 <= m && m + 8 < |h| && WordAt(h, m, "mastodon")
  }

  predicate HasSignal(h: string)
  {
    SocialSuffix(h) || SocialPrefix(h) || MastodonInside(h)
  }

  /** A character whose lower-case form is in the handle class is in it too. */
  lemma LowerKeepsHandleClass(c: char)
    requires InHandleClass(LowerChar(c))
    ensures InHandleClass(c)
  {
  }

  /** The text under a literal word made only of handle characters is handle text. */
  lemma WordIsHandle(s: string, p: nat, w: string)
    requires WordAt(s, p, w) && AllHandle(w)
    ensures forall i :: p <= i < p + |w| ==> InHandleClass(s[i])
  {
    forall i | p <= i < p + |w|
      ensures InHandleClass(s[i])
    {
      assert Lower(s[p..p + |w|])[i - p] == LowerChar(s[i]);
      LowerKeepsHandleClass(s[i]);
    }
  }

  /** Alternative 2 once the separating `@` is known. */
  lemma SocialSuffixPartsSignal(u: string, h: string)
    ensures SocialSuffixParts(u, h) <==> |u| > 0 && AllHandle(u) && AllHandle(h) && SocialSuffix(h)
  {
    if SocialSuffix(h) && AllHandle(h[..|h| - 7]) {
      AllHandleLiterals();
      WordIsHandle(h, |h| - 7, ".social");
      assert AllHandle(h);
    }
  }

  /** Alternative 3 once the separating `@` is known. */
  lemma SocialPrefixPartsSignal(u: string, h: string)
    ensures SocialPrefixParts(u, h) <==> |u| > 0 && AllHandle(u) && AllHandle(h) && SocialPrefix(h)
  {
    if SocialPrefix(h) && AllHandle(h[7..]) {
      AllHandleLiterals();
      WordIsHandle(h, 0, "social.");
      assert forall i :: 7 <= i < |h| ==> h[7..][i - 7] == h[i];
      assert AllHandle(h);
    }
  }

  /** Alternative 4 once the separating `@` is known. */
  lemma MastodonPartsSignal(u: string, h: string)
    ensures MastodonParts(u, h) <==> |u| > 0 && AllHandle(u) && AllHandle(h) && MastodonInside(h)
  {
    if MastodonParts(u, h) {
      var m :| 0 <= m && m + 8 < |h| && WordAt(h, m, "mastodon")
               && AllHandle(h[..m]) && AllHandle(h[m + 8..]);
      MastodonWordHandle(h, m);
    }
    if |u| > 0 && AllHandle(u) && AllHandle(h) && MastodonInside(h) {
      var m :| 0 <= m && m + 8 < |h| && WordAt(h, m, "mastodon");
      assert AllHandle(h[..m]) && AllHandle(h[m + 8..]);
    }
  }

  /** Handle text around a `mastodon` word makes the whole domain handle text. */
  lemma MastodonWordHandle(h: string, m: nat)
    requires m + 8 <= |h| && WordAt(h, m, "mastodon")
    requires AllHandle(h[..m]) && AllHandle(h[m + 8..])
    ensures AllHandle(h)
  {
    AllHandleLiterals();
    WordIsHandle(h, m, "mastodon");
    forall i | 0 <= i < |h|
      ensures InHandleClass(h[i])
    {
      if i < m {
        assert h[..m][i] == h[i];
      } else if i >= m + 8 {
        assert h[m + 8..][i - m - 8] == h[i];
      }
    }
  }

  lemma AllHandleLiterals()
    ensures AllHandle(".social") && AllHandle("social.") && AllHandle("mastodon")
  {
    PlainIsUrl(".social");
    PlainIsUrl("social.");
    PlainIsUrl("mastodon");
  }

  /**
    A token `u@h` without a leading `@` (neither side holding another `@`) is
    a Pattern A match exactly when both sides are handle text, the user side
    is not empty, and the domain ends in `.social`, starts with `social.`, or
    has `mastodon` followed by at least one more character.
   */
  lemma PlainHandleMatch(u: string, h: string)
    requires '@' !in u && '@' !in h
    ensures PatternA(u + "@" + h)
        <==> |u| > 0 && AllHandle(u) && AllHandle(h) && HasSignal(h)
  {
    var t := u + "@" + h;
    assert t[|u|] == '@';
    assert t[..|u|] == u && t[|u| + 1..] == h;
    assert forall k :: 0 <= k < |t| && t[k] == '@' ==> k == |u| by {
      assert forall k :: 0 <= k < |u| ==> t[k] == u[k];
      assert forall k :: |u| < k < |t| ==> t[k] == h[k - |u| - 1];
    }
    assert !MentionForm(t) by {
      if |u| > 0 {
        assert t[0] == u[0];
      }
    }
    SocialSuffixPartsSignal(u, h);
    SocialPrefixPartsSignal(u, h);
    MastodonPartsSignal(u, h);
  }

  /**
    The e-mail rule for any token, however many `@` it holds: a match that
    does not begin with `@` has an `@` followed by a domain ending in
    `.social`, starting with `social.`, or holding `mastodon` before its end.
   */
  lemma SignalRequired(t: string)
    requires |t| > 0 && t[0] != '@'
    ensures PatternA(t) ==> exists k :: 0 <= k < |t| && t[k] == '@' && HasSignal(t[k + 1..])
  {
    if SocialSuffixForm(t) {
      var k :| 0 <= k < |t| && t[k] == '@' && SocialSuffixParts(t[..k], t[k + 1..]);
      SocialSuffixPartsSignal(t[..k], t[k + 1..]);
    } else if SocialPrefixForm(t) {
      var k :| 0 <= k < |t| && t[k] == '@' && SocialPrefixParts(t[..k], t[k + 1..]);
      SocialPrefixPartsSignal(t[..k], t[k + 1..]);
    } else if MastodonForm(t) {
      var k :| 0 <= k < |t| && t[k] == '@' && MastodonParts(t[..k], t[k + 1..]);
      MastodonPartsSignal(t[..k], t[k + 1..]);
    }
  }

  /** Plain e-mail addresses are not Pattern A matches. */
  lemma EmailNotMatched()
    ensures !PatternA("foo@bar.com")
    ensures !PatternA("bob@gmail.com")
  {
    EmailFoo();
    EmailBob();
  }

  lemma EmailFoo()
    ensures !PatternA("foo@bar.com")
  {
    NoSignalExamples();
    assert "foo" + "@" + "bar.com" == "foo@bar.com";
    EmailNotMatchedOne("foo", "bar.com");
  }

  lemma EmailBob()
    ensures !PatternA("bob@gmail.com")
  {
    NoSignalExamples();
    assert "bob" + "@" + "gmail.com" == "bob@gmail.com";
    EmailNotMatchedOne("bob", "gmail.com");
  }

  lemma NoSignalExamples()
    ensures !HasSignal("bar.com") && !HasSignal("gmail.com")
  {
    var h := "gmail.com";
    assert Lower(h[2..9])[0] == 'a';
    assert Lower(h[0..7])[0] == 'g';
    assert Lower(h[0..8])[0] == 'g';
  }

  /** A domain without any of the signs makes `u@h` no match. */
  lemma EmailNotMatchedOne(u: string, h: string)
    requires '@' !in u && '@' !in h && !HasSignal(h)
    ensures !PatternA(u + "@" + h)
  {
    PlainHandleMatch(u, h);
  }

  /**
    A Pattern A match need not be a handle: the handle class admits `@`, so
    `a@b@x.social` matches alternative 2 and yet fails to parse, which is why
    unparsable matches are dropped.
   */
  lemma MatchWithoutId()
    ensures PatternA("a@b@x.social")
    ensures ParseId("a@b@x.social") == None
  {
    MatchWithoutIdMatches();
    MatchWithoutIdParse();
  }

  lemma MatchWithoutIdMatches()
    ensures PatternA("a@b@x.social")
  {
    var t := "a@b@x.social";
    var h := "b@x.social";
    assert AllHandle(h) by {
      assert forall i :: 0 <= i < |h| ==> InHandleClass(h[i]);
    }
    assert SocialSuffix(h) by {
      assert h[3..10] == ".social";
      LowerOfLowercase(".social");
    }
    SocialSuffixPartsSignal("a", h);
    assert t == "a" + "@" + h;
    assert t[..1] == "a" && t[2..] == h;
  }

  lemma MatchWithoutIdParse()
    ensures ParseId("a@b@x.social") == None
  {
    var t := "a@b@x.social";
    var h := "x.social";
    CountZero(h, '@');
    assert t[1..] == "@b" + "@" + h;
    assert Count("@b" + "@" + h, '@') == 2 by {
      CountConcat("@b", "@" + h, '@');
      CountConcat("@", h, '@');
      assert Count("@b", '@') == 1 by {
        assert "@b"[1..] == "b" && "b"[1..] == "";
      }
      assert Count("@", '@') == 1 by {
        assert "@"[1..] == "";
      }
    }
    assert Count(t, '@') == 2;
  }

  /**
    The mention form `@user@domain.tld` is a Pattern A match and parses to the
    user and the whole domain.
   */
  lemma MentionMatchParses(u: string, d: string, e: string)
    requires '@' !in u && '@' !in d && '@' !in e
    requires |u| > 0 && AllHandle(u)
    requires |d| > 0 && AllMentionDomain(d)
    requires |e| > 0 && AllHandle(e)
    ensures PatternA("@" + u + "@" + d + "." + e)
    ensures ParseId("@" + u + "@" + d + "." + e) == Some(MastodonID(u, d + "." + e))
  {
    var h := d + "." + e;
    assert "@" + u + "@" + d + "." + e == "@" + u + "@" + h;
    DottedDomain(u, d, e);
    MentionFormOf(u, h);
    MentionParses(u, d, e);
  }

  lemma MentionParses(u: string, d: string, e: string)
    requires '@' !in u && '@' !in d && '@' !in e
    ensures ParseId("@" + u + "@" + d + "." + e) == Some(MastodonID(u, d + "." + e))
  {
    var id := MastodonID(u, d + "." + e);
    assert '@' !in id.host;
    assert "@" + u + "@" + d + "." + e == "@" + ToString(id);
    ParseMention(id);
  }

  /** Alternative 1 once the separating `@` is known. */
  lemma MentionFormOf(u: string, h: string)
    requires MentionParts(u, h)
    ensures MentionForm("@" + u + "@" + h)
  {
    var t := "@" + u + "@" + h;
    var k := |u| + 1;
    assert t[k] == '@' && t[1..k] == u && t[k + 1..] == h;
  }

  lemma DottedDomain(u: string, d: string, e: string)
    requires |u| > 0 && AllHandle(u)
    requires |d| > 0 && AllMentionDomain(d)
    requires |e| > 0 && AllHandle(e)
    ensures MentionParts(u, d + "." + e)
  {
    var h := d + "." + e;
    assert h[|d|] == '.' && h[..|d|] == d && h[|d| + 1..] == e;
  }

  // ---------------------------------------------------------------------
  // The keyword pattern `.*(mastodon|toot|tröt).*`, applied with `match`.

  predicate KeywordAt(d: string, p: nat)
  {
    WordAt(d, p, "mastodon") || WordAt(d, p, "toot") || WordAt(d, p, "tröt")
  }

  /**
    `_keyword_pattern.match(d)`: the match is anchored at the start of `d`
    and `.` does not match a newline, so a keyword must begin before the
    first newline.
   */
  predicate KeywordMatch(d: string)
  {
    exists p :: 0 <= p <= |d| && '\n' !in d[..p] && KeywordAt(d, p)
  }

  /** `d` contains one of the keywords somewhere, ignoring case. */
  predicate ContainsKeyword(d: string)
  {
    exists p :: 0 <= p <= |d| && KeywordAt(d, p)
  }

  /** On a line produced by `splitlines` the anchored match finds any keyword. */
  lemma KeywordMatchOnLine(d: string)
    requires NoLineBoundary(d)
    ensures KeywordMatch(d) <==> ContainsKeyword(d)
  {
    if ContainsKeyword(d) {
      var p :| 0 <= p <= |d| && KeywordAt(d, p);
      assert IsLineBoundary('\n');
      assert '\n' !in d[..p];
    }
  }

  /** A keyword, in any case, before the first newline makes the line match. */
  lemma KeywordIn(x: string, k: string, y: string)
    requires Lower(k) == "mastodon" || Lower(k) == "toot" || Lower(k) == "tröt"
    requires '\n' !in x
    ensures KeywordMatch(x + k + y)
  {
    var d := x + k + y;
    assert d[|x|..|x| + |k|] == k;
    assert d[..|x|] == x;
    assert KeywordAt(d, |x|);
  }

  lemma KeywordExampleEnglish()
    ensures KeywordMatch("find me on Mastodon")
  {
    assert Lower("Mastodon") == "mastodon";
    KeywordIn("find me on ", "Mastodon", "");
    assert "find me on " + "Mastodon" + "" == "find me on Mastodon";
  }

  lemma KeywordExampleGerman()
    ensures KeywordMatch("Ich TRÖTE hier")
  {
    assert Lower("TRÖT") == "tröt";
    KeywordIn("Ich ", "TRÖT", "E hier");
    assert "Ich " + "TRÖT" + "E hier" == "Ich TRÖTE hier";
  }

  /** A keyword after a newline is out of reach of the anchored match. */
  lemma KeywordAfterNewline()
    ensures !KeywordMatch("\ntoot")
  {
    var d := "\ntoot";
    forall p | 0 < p <= |d|
      ensures '\n' in d[..p]
    {
      assert d[..p][0] == '\n';
    }
    assert Lower(d[0..4])[0] == '\n';
  }

  // ---------------------------------------------------------------------
  // Pattern B, `(http://|https://)([^\s(),:;#/])+/@([^\s(),:;#/]+)(/)?`.

  /** The four groups that `findall` reports for one Pattern B match. */
  datatype UrlGroups = UrlGroups(scheme: string, host: string, user: string, slash: string)

  /** The identity built from a group tuple `(_, h, u, _)`: user `u`, host `h`. */
  function IdFromGroups(g: UrlGroups): MastodonID
  {
    MastodonID(g.user, g.host)
  }

  predicate IsScheme(s: string)
  {
    Lower(s) == "http://" || Lower(s) == "https://"
  }

  /**
    `t` is the scheme group, a non-empty run `hostRun` of URL characters,
    `/@`, the user group and the optional slash group, in that order.
   */
  predicate UrlText(t: string, g: UrlGroups, hostRun: string)
  {
    && t == g.scheme + hostRun + "/@" + g.user + g.slash
    && IsScheme(g.scheme)
    && |hostRun| > 0 && AllUrl(hostRun)
    && |g.user| > 0 && AllUrl(g.user)
    && (g.slash == "" || g.slash == "/")
  }

  /**
    Pattern B as written: `([^\s(),:;#/])+` repeats a one-character group, and
    a repeated group reports only its last repetition, so the host group is
    the last character of the host.
   */
  ghost predicate UrlMatch(t: string, g: UrlGroups)
  {
    exists hostRun :: UrlText(t, g, hostRun) && g.host == [hostRun[|hostRun| - 1]]
  }

  /** Pattern B as intended, `([^\s(),:;#/]+)`: the host group is the whole host. */
  predicate UrlMatchIntended(t: string, g: UrlGroups)
  {
    UrlText(t, g, g.host)
  }

  /**
    As written, the profile URL of `carol@mstdn.social` is matched but yields
    the identity `carol@l`: no match of it gives back the identity.
   */
  lemma UrlMatchLosesHost()
    ensures UrlMatch(Url(MastodonID("carol", "mstdn.social")), UrlGroups("https://", "l", "carol", ""))
    ensures forall g :: UrlMatch(Url(MastodonID("carol", "mstdn.social")), g)
                     ==> IdFromGroups(g) != MastodonID("carol", "mstdn.social")
  {
    var id := MastodonID("carol", "mstdn.social");
    PlainIsUrl("mstdn.social");
    PlainIsUrl("carol");
    UrlTextOfUrl(id, "");
    assert "mstdn.social"[11] == 'l';
  }

  /**
    The profile URL of an identity whose parts are URL text, with or without
    a trailing slash, has the Pattern B form.
   */
  lemma UrlTextOfUrl(id: MastodonID, slash: string)
    requires |id.host| > 0 && AllUrl(id.host)
    requires |id.user| > 0 && AllUrl(id.user)
    requires slash == "" || slash == "/"
    ensures UrlText(Url(id) + slash, UrlGroups("https://", id.host, id.user, slash), id.host)
  {
    LowerOfLowercase("https://");
    assert Url(id) + slash == "https://" + id.host + "/@" + id.user + slash;
  }

  /** The scheme of a match of `https://...` is its first eight characters. */
  lemma HttpsScheme(rest: string, g: UrlGroups, tail: string)
    requires "https://" + rest == g.scheme + tail
    requires IsScheme(g.scheme)
    ensures g.scheme == "https://" && tail == rest
  {
    var t := "https://" + rest;
    assert |Lower(g.scheme)| == |g.scheme|;
    assert g.scheme[4] == t[4] == 's';
    assert Lower(g.scheme)[4] == 's';
    assert |g.scheme| == 8;
    assert g.scheme == t[..8] && tail == t[8..];
  }

  /** Every intended match of a profile URL, with or without a trailing slash, gives back its identity. */
  lemma UrlMatchIntendedUnique(id: MastodonID, slash: string, g: UrlGroups)
    requires |id.host| > 0 && AllUrl(id.host)
    requires |id.user| > 0 && AllUrl(id.user)
    requires slash == "" || slash == "/"
    requires UrlMatchIntended(Url(id) + slash, g)
    ensures IdFromGroups(g) == id && g.slash == slash
  {
    assert Url(id) + slash == "https://" + (id.host + "/@" + (id.user + slash));
    assert '/' !in id.host;
    UrlHostUnique(id.host, id.user + slash, g);
    assert '/' !in id.user && '/' !in g.user;
    UserSlashUnique(id.user, slash, g.user, g.slash);
  }

  /** In an intended match of `https://h/@rest`, with `h` free of `/`, the host group is `h`. */
  lemma UrlHostUnique(h: string, rest: string, g: UrlGroups)
    requires '/' !in h
    requires UrlMatchIntended("https://" + (h + "/@" + rest), g)
    ensures g.host == h && g.user + g.slash == rest
  {
    var tail := g.host + "/@" + g.user + g.slash;
    assert "https://" + (h + "/@" + rest) == g.scheme + tail;
    HttpsScheme(h + "/@" + rest, g, tail);
    assert h + "/@" + rest == h + ['/'] + ("@" + rest);
    assert tail == g.host + ['/'] + ("@" + g.user + g.slash);
    assert '/' !in g.host;
    SeparatorUnique(h, "@" + rest, g.host, "@" + g.user + g.slash, '/');
    assert ("@" + rest)[1..] == rest;
    assert ("@" + g.user + g.slash)[1..] == g.user + g.slash;
  }

  /** A user part without `/`, followed by an optional slash, splits back into the two. */
  lemma UserSlashUnique(u1: string, s1: string, u2: string, s2: string)
    requires |u1| > 0 && '/' !in u1 && |u2| > 0 && '/' !in u2
    requires (s1 == "" || s1 == "/") && (s2 == "" || s2 == "/")
    requires u1 + s1 == u2 + s2
    ensures u1 == u2 && s1 == s2
  {
    var e := u1 + s1;
    assert e[|e| - 1] == '/' <==> s1 == "/" by {
      assert u1[|u1| - 1] in u1;
      if s1 == "" { assert e == u1; }
    }
    assert e[|e| - 1] == '/' <==> s2 == "/" by {
      assert u2[|u2| - 1] in u2;
      if s2 == "" { assert e == u2; }
    }
    assert e[..|u1|] == u1 && e[..|u2|] == u2;
  }

  /**
    With the intended host group, the profile URL of an identity whose parts
    are URL text, with or without a trailing slash, is matched, and every
    match of it yields that identity.
   */
  lemma UrlRoundTrip(id: MastodonID, slash: string)
    requires |id.host| > 0 && AllUrl(id.host)
    requires |id.user| > 0 && AllUrl(id.user)
    requires slash == "" || slash == "/"
    ensures UrlMatchIntended(Url(id) + slash, UrlGroups("https://", id.host, id.user, slash))
    ensures forall g :: UrlMatchIntended(Url(id) + slash, g) ==> IdFromGroups(g) == id
  {
    UrlTextOfUrl(id, slash);
    forall g | UrlMatchIntended(Url(id) + slash, g)
      ensures IdFromGroups(g) == id
    {
      UrlMatchIntendedUnique(id, slash, g);
    }
  }
}
