/**
  The classification of followers in `extract_mastodon_ids`: for each user,
  the identities found in the screen name and the biography; when there are
  none, the biography lines that mention a keyword; and the two result lists
  the users are appended to.
 */
module Extract {
  import opened Wrappers
  import opened Text
  import opened MastodonIds
  import opened Patterns
  import opened FilterMaps

  /** A follower record as the directory service returns it. */
  datatype User = User(id: int, name: string, screenname: string, bio: string)

  /** `UserResult`: the user's own fields, the identities found and the keyword lines. */
  datatype UserResult = UserResult(
    uid: int, name: string, screenname: string, bio: string,
    mastodonIds: multiset<MastodonID>, extras: Option<seq<string>>)

  /**
    The two `findall` scans of one text, supplied from outside: the strings
    Pattern A matches, and the group tuples of Pattern B's matches.
   */
  datatype Scanner = Scanner(mentions: string -> seq<string>, urls: string -> seq<UrlGroups>)

  /** Every candidate parsed, those that fail to parse dropped, in order. */
  function ParsedIds(cands: seq<string>): seq<MastodonID>
  {
    FilterMap(cands, ParseId)
  }

  /**
    One identity per candidate that parses: as many as there are parsable
    candidates, each identity as often as candidates parse to it, and so
    exactly the identities some candidate parses to.
   */
  lemma ParsedIdsSpec(cands: seq<string>)
    ensures |ParsedIds(cands)| == |cands| - Failures(cands, ParseId)
    ensures forall id :: multiset(ParsedIds(cands))[id] == CountTo(cands, ParseId, id)
    ensures forall id :: id in ParsedIds(cands) <==> exists s :: s in cands && ParseId(s) == Some(id)
  {
    FilterMapLength(cands, ParseId);
    forall id
      ensures multiset(ParsedIds(cands))[id] == CountTo(cands, ParseId, id)
      ensures id in ParsedIds(cands) <==> exists s :: s in cands && ParseId(s) == Some(id)
    {
      FilterMapCount(cands, ParseId, id);
      FilterMapMembers(cands, ParseId, id);
    }
  }

  /** Line 61: the identity of every Pattern B tuple, in order. */
  function GroupIds(gs: seq<UrlGroups>): seq<MastodonID>
  {
    Map(gs, IdFromGroups)
  }

  /**
    One identity per tuple, the `i`-th named by the `i`-th tuple, each
    identity as often as tuples name it, and so exactly the identities some
    tuple names.
   */
  lemma GroupIdsSpec(gs: seq<UrlGroups>)
    ensures |GroupIds(gs)| == |gs|
    ensures forall i :: 0 <= i < |gs| ==> GroupIds(gs)[i] == IdFromGroups(gs[i])
    ensures forall id :: multiset(GroupIds(gs))[id] == CountImage(gs, IdFromGroups, id)
    ensures forall id :: id in GroupIds(gs) <==> exists g :: g in gs && IdFromGroups(g) == id
  {
    MapIndex(gs, IdFromGroups);
    forall id
      ensures multiset(GroupIds(gs))[id] == CountImage(gs, IdFromGroups, id)
      ensures id in GroupIds(gs) <==> exists g :: g in gs && IdFromGroups(g) == id
    {
      MapCount(gs, IdFromGroups, id);
      MapMembers(gs, IdFromGroups, id);
    }
  }

  /**
    `mastodon_ids`: the identities of the user's screen name and biography,
    one entry per match (the set of freshly made objects keeps every one).
   */
  function FoundIds(u: User, sc: Scanner): multiset<MastodonID>
  {
    multiset(ParsedIds(sc.mentions(u.screenname) + sc.mentions(u.bio)))
      + multiset(GroupIds(sc.urls(u.screenname) + sc.urls(u.bio)))
  }

  /**
    An identity is found for a user exactly when a Pattern A candidate of the
    screen name or the biography parses to it, or a Pattern B tuple of either
    names it; the display name is never looked at.
   */
  lemma FoundIdsMembers(u: User, sc: Scanner, id: MastodonID)
    ensures id in FoundIds(u, sc) <==>
      || (exists s :: s in sc.mentions(u.screenname) + sc.mentions(u.bio) && ParseId(s) == Some(id))
      || (exists g :: g in sc.urls(u.screenname) + sc.urls(u.bio) && IdFromGroups(g) == id)
  {
    var ms := sc.mentions(u.screenname) + sc.mentions(u.bio);
    var gs := sc.urls(u.screenname) + sc.urls(u.bio);
    FilterMapMembers(ms, ParseId, id);
    MapMembers(gs, IdFromGroups, id);
    assert id in FoundIds(u, sc) <==> id in ParsedIds(ms) || id in GroupIds(gs);
  }

  /**
    Each identity is found once per Pattern A candidate that parses to it and
    once per Pattern B tuple that names it.
   */
  lemma FoundIdsCount(u: User, sc: Scanner, id: MastodonID)
    ensures FoundIds(u, sc)[id]
         == CountTo(sc.mentions(u.screenname) + sc.mentions(u.bio), ParseId, id)
          + CountImage(sc.urls(u.screenname) + sc.urls(u.bio), IdFromGroups, id)
  {
    FilterMapCount(sc.mentions(u.screenname) + sc.mentions(u.bio), ParseId, id);
    MapCount(sc.urls(u.screenname) + sc.urls(u.bio), IdFromGroups, id);
  }

  /** `t` occurs in the screen name or in the biography. */
  predicate InProfile(t: string, u: User)
  {
    IsSubstring(t, u.screenname) || IsSubstring(t, u.bio)
  }

  /**
    A scanner of the patterns as written: every string it reports for a text
    is a whole Pattern A match occurring in that text, and every group tuple
    belongs to a Pattern B match occurring in that text.
   */
  ghost predicate FaithfulScanner(sc: Scanner)
  {
    && (forall s, m :: m in sc.mentions(s) ==> PatternA(m) && IsSubstring(m, s))
    && (forall s, g :: g in sc.urls(s) ==> exists t :: IsSubstring(t, s) && UrlMatch(t, g))
  }

  /** The same, with Pattern B's host group as intended. */
  ghost predicate IntendedScanner(sc: Scanner)
  {
    && (forall s, m :: m in sc.mentions(s) ==> PatternA(m) && IsSubstring(m, s))
    && (forall s, g :: g in sc.urls(s) ==> exists t :: IsSubstring(t, s) && UrlMatchIntended(t, g))
  }

  /**
    With a faithful scanner every identity found is the parse of a Pattern A
    match in the screen name or the biography, or comes from the groups of a
    Pattern B match there; in the latter case its host is a single character.
   */
  lemma FoundFromMatches(u: User, sc: Scanner, id: MastodonID)
    requires FaithfulScanner(sc)
    requires id in FoundIds(u, sc)
    ensures || (exists m :: InProfile(m, u) && PatternA(m) && ParseId(m) == Some(id))
            || (exists t, g :: InProfile(t, u) && UrlMatch(t, g) && IdFromGroups(g) == id && |id.host| == 1)
  {
    FoundIdsMembers(u, sc, id);
    var ms := sc.mentions(u.screenname) + sc.mentions(u.bio);
    var gs := sc.urls(u.screenname) + sc.urls(u.bio);
    if m :| m in ms && ParseId(m) == Some(id) {
      if m in sc.mentions(u.screenname) {
        assert IsSubstring(m, u.screenname);
      } else {
        assert IsSubstring(m, u.bio);
      }
      assert InProfile(m, u) && PatternA(m);
    } else {
      var g :| g in gs && IdFromGroups(g) == id;
      var s := if g in sc.urls(u.screenname) then u.screenname else u.bio;
      assert g in sc.urls(s);
      var t :| IsSubstring(t, s) && UrlMatch(t, g);
      assert InProfile(t, u);
    }
  }

  /**
    With the intended Pattern B, every identity found is the parse of a
    Pattern A match in the screen name or the biography, or the user and
    host of a profile URL there.
   */
  lemma FoundFromMatchesIntended(u: User, sc: Scanner, id: MastodonID)
    requires IntendedScanner(sc)
    requires id in FoundIds(u, sc)
    ensures || (exists m :: InProfile(m, u) && PatternA(m) && ParseId(m) == Some(id))
            || (exists t, g :: InProfile(t, u) && UrlMatchIntended(t, g) && IdFromGroups(g) == id)
  {
    FoundIdsMembers(u, sc, id);
    var ms := sc.mentions(u.screenname) + sc.mentions(u.bio);
    var gs := sc.urls(u.screenname) + sc.urls(u.bio);
    if m :| m in ms && ParseId(m) == Some(id) {
      if m in sc.mentions(u.screenname) {
        assert IsSubstring(m, u.screenname);
      } else {
        assert IsSubstring(m, u.bio);
      }
      assert InProfile(m, u) && PatternA(m);
    } else {
      var g :| g in gs && IdFromGroups(g) == id;
      var s := if g in sc.urls(u.screenname) then u.screenname else u.bio;
      assert g in sc.urls(s);
      var t :| IsSubstring(t, s) && UrlMatchIntended(t, g);
      assert InProfile(t, u);
    }
  }

  /** The lines that the keyword pattern matches, in their original order. */
  function KeywordLines(lines: seq<string>): seq<string>
  {
    Filter(lines, KeywordMatch)
  }

  /**
    The kept lines are the lines with some left out, in order, and hold each
    matching line exactly as often as the input does and no other line.
   */
  lemma KeywordLinesSpec(lines: seq<string>)
    ensures IsSubsequence(KeywordLines(lines), lines)
    ensures forall d :: multiset(KeywordLines(lines))[d]
                     == if KeywordMatch(d) then multiset(lines)[d] else 0
  {
    FilterSpec(lines, KeywordMatch);
  }

  /**
    What the keyword scan leaves in `extras`: the matching lines of the
    biography, or None when there are none.
   */
  function ExtrasOf(bio: string): Option<seq<string>>
  {
    var kept := KeywordLines(SplitLines(bio));
    if kept == [] then None else Some(kept)
  }

  /**
    `extras` is None exactly when no line of the biography matches, and is
    otherwise the matching lines, never an empty list.
   */
  lemma ExtrasOfSpec(bio: string)
    ensures ExtrasOf(bio).None? <==> forall d :: d in SplitLines(bio) ==> !KeywordMatch(d)
    ensures ExtrasOf(bio).Some? ==> ExtrasOf(bio).value != []
    ensures ExtrasOf(bio).Some? ==> ExtrasOf(bio).value == KeywordLines(SplitLines(bio))
  {
    var kept := KeywordLines(SplitLines(bio));
    KeywordLinesSpec(SplitLines(bio));
    if kept == [] {
      forall d | d in SplitLines(bio)
        ensures !KeywordMatch(d)
      {
        assert multiset(kept)[d] == 0;
      }
    } else {
      assert multiset(kept)[kept[0]] > 0;
    }
  }

  /** Since lines have no newline, a line is kept exactly when it contains a keyword anywhere. */
  lemma ExtrasByContainment(bio: string)
    ensures ExtrasOf(bio).None? <==> forall d :: d in SplitLines(bio) ==> !ContainsKeyword(d)
  {
    ExtrasOfSpec(bio);
    var lines := SplitLines(bio);
    forall d | d in lines
      ensures KeywordMatch(d) <==> ContainsKeyword(d)
    {
      KeywordMatchOnLine(d);
    }
  }

  /** The inner loop of lines 66-69 over the lines of the biography. */
  method CollectExtras(bio: string) returns (extras: Option<seq<string>>)
    ensures extras == ExtrasOf(bio)
  {
    var lines := SplitLines(bio);
    var found: seq<string> := [];
    var i := 0;
    while i < |lines|
      invariant 0 <= i <= |lines|
      invariant found == KeywordLines(lines[..i])
    {
      FilterStep(lines, KeywordMatch, i);
      if KeywordMatch(lines[i]) {
        found := found + [lines[i]];
      }
      i := i + 1;
    }
    assert lines[..|lines|] == lines;
    if found == [] {
      extras := None;
    } else {
      extras := Some(found);
    }
  }

  /** The record lines 72 and 74 build for `u`; the keyword scan runs only without identities. */
  function ResultOf(u: User, sc: Scanner): UserResult
  {
    var ids := FoundIds(u, sc);
    UserResult(u.id, u.name, u.screenname, u.bio, ids,
               if ids == multiset{} then ExtrasOf(u.bio) else None)
  }

  /** The record of every user, in input order. */
  function Results(users: seq<User>, sc: Scanner): seq<UserResult>
  {
    Map(users, u => ResultOf(u, sc))
  }

  /** A record the classification can build: the keyword lines were collected only without identities. */
  predicate Consistent(r: UserResult)
  {
    r.extras == if r.mastodonIds == multiset{} then ExtrasOf(r.bio) else None
  }

  /** One record per user, in order, and every record one the classification can build. */
  lemma ResultsConsistent(users: seq<User>, sc: Scanner)
    ensures |Results(users, sc)| == |users|
    ensures forall i :: 0 <= i < |users| ==> Results(users, sc)[i] == ResultOf(users[i], sc)
    ensures forall r :: r in Results(users, sc) ==> Consistent(r)
  {
    MapIndex(users, u => ResultOf(u, sc));
    var rs := Results(users, sc);
    forall r | r in rs
      ensures Consistent(r)
    {
      var i :| 0 <= i < |rs| && rs[i] == r;
    }
  }

  /** Line 71: a record with identities goes to `results1`. */
  predicate InResults1(r: UserResult)
  {
    r.mastodonIds != multiset{}
  }

  /** Line 73: otherwise a record with keyword lines goes to `results2`. */
  predicate InResults2(r: UserResult)
  {
    r.mastodonIds == multiset{} && r.extras.Some?
  }

  /** The records that go to `results1`, in order. */
  function Results1(rs: seq<UserResult>): seq<UserResult>
  {
    Filter(rs, InResults1)
  }

  /** The records that go to `results2`, in order. */
  function Results2(rs: seq<UserResult>): seq<UserResult>
  {
    Filter(rs, InResults2)
  }

  /** A `results1` entry: identities found, keyword scan skipped. */
  predicate IdentityRecord(r: UserResult)
  {
    r.mastodonIds != multiset{} && r.extras == None
  }

  /** A `results2` entry: no identities, and exactly the biography's keyword lines, at least one. */
  predicate KeywordRecord(r: UserResult)
  {
    && r.mastodonIds == multiset{}
    && r.extras.Some? && r.extras.value != []
    && r.extras.value == KeywordLines(SplitLines(r.bio))
  }

  /**
    Of consistent records, `results1` keeps only ones with identities and no
    keyword lines, and `results2` only ones without identities that carry
    exactly the biography's keyword lines, at least one.
   */
  lemma BucketRecords(rs: seq<UserResult>)
    requires forall r :: r in rs ==> Consistent(r)
    ensures forall r :: r in Results1(rs) ==> IdentityRecord(r)
    ensures forall r :: r in Results2(rs) ==> KeywordRecord(r)
  {
    BucketCounts(rs);
    forall r | r in Results1(rs)
      ensures IdentityRecord(r)
    {
      assert multiset(Results1(rs))[r] > 0;
      assert r in rs;
    }
    forall r | r in Results2(rs)
      ensures KeywordRecord(r)
    {
      assert multiset(Results2(rs))[r] > 0;
      assert r in rs;
      assert Consistent(r);
      ExtrasOfSpec(r.bio);
    }
  }

  /**
    Each list holds every record of its kind exactly as often as the input
    does, and no record of another kind: no record is lost or invented.
   */
  lemma BucketCounts(rs: seq<UserResult>)
    ensures forall r :: multiset(Results1(rs))[r] == if InResults1(r) then multiset(rs)[r] else 0
    ensures forall r :: multiset(Results2(rs))[r] == if InResults2(r) then multiset(rs)[r] else 0
  {
    FilterSpec(rs, InResults1);
    FilterSpec(rs, InResults2);
  }

  /** Both lists keep input order: each is the input with some records left out. */
  lemma BucketsInOrder(rs: seq<UserResult>)
    ensures IsSubsequence(Results1(rs), rs)
    ensures IsSubsequence(Results2(rs), rs)
  {
    FilterSpec(rs, InResults1);
    FilterSpec(rs, InResults2);
  }

  /** Each record lands in at most one of the two lists, so together they are no longer than the input. */
  lemma BucketsBounded(rs: seq<UserResult>)
    ensures |Results1(rs)| + |Results2(rs)| <= |rs|
  {
    FilterDisjoint(rs, InResults1, InResults2);
  }

  /**
    The lists are built record by record: classifying two runs one after the
    other gives the lists of the first run followed by those of the second.
   */
  lemma BucketsConcat(a: seq<UserResult>, b: seq<UserResult>)
    ensures Results1(a + b) == Results1(a) + Results1(b)
    ensures Results2(a + b) == Results2(a) + Results2(b)
  {
    FilterConcat(a, b, InResults1);
    FilterConcat(a, b, InResults2);
  }

  /**
    Where each user ends up: the `i`-th user's record is in `results1`
    exactly when an identity is found for it, and in `results2` exactly when
    none is found and some line of its biography has a keyword.
   */
  lemma UserPlacement(users: seq<User>, sc: Scanner)
    ensures forall i :: 0 <= i < |users| ==>
              (ResultOf(users[i], sc) in Results1(Results(users, sc)) <==> FoundIds(users[i], sc) != multiset{})
    ensures forall i :: 0 <= i < |users| ==>
              (ResultOf(users[i], sc) in Results2(Results(users, sc)) <==>
                 FoundIds(users[i], sc) == multiset{} && exists d :: d in SplitLines(users[i].bio) && KeywordMatch(d))
  {
    var rs := Results(users, sc);
    ResultsConsistent(users, sc);
    BucketCounts(rs);
    forall i | 0 <= i < |users|
      ensures ResultOf(users[i], sc) in Results1(rs) <==> FoundIds(users[i], sc) != multiset{}
      ensures ResultOf(users[i], sc) in Results2(rs) <==>
                FoundIds(users[i], sc) == multiset{} && exists d :: d in SplitLines(users[i].bio) && KeywordMatch(d)
    {
      var r := ResultOf(users[i], sc);
      assert rs[i] == r;
      assert multiset(rs)[r] > 0;
      ExtrasOfSpec(users[i].bio);
    }
  }

  /** The records of one more user are the records so far and the new user's one. */
  lemma ResultsStep(users: seq<User>, i: nat, sc: Scanner)
    requires i < |users|
    ensures Results(users[..i + 1], sc) == Results(users[..i], sc) + [ResultOf(users[i], sc)]
  {
    assert users[..i + 1][..i] == users[..i];
  }

  /** One more record goes to the list of its kind, if any: lines 71-74. */
  lemma BucketsStep(rs: seq<UserResult>, r: UserResult)
    ensures Results1(rs + [r]) == Results1(rs) + (if r.mastodonIds != multiset{} then [r] else [])
    ensures Results2(rs + [r])
         == Results2(rs) + (if r.mastodonIds == multiset{} && r.extras.Some? then [r] else [])
  {
    FilterConcat(rs, [r], InResults1);
    FilterConcat(rs, [r], InResults2);
    assert Filter([r], InResults1) == (if InResults1(r) then [r] else []);
    assert Filter([r], InResults2) == (if InResults2(r) then [r] else []);
  }

  /**
    The body of the loop, lines 54-69, for one user: the identities found,
    and the keyword lines only when there are none.
   */
  method ClassifyUser(u: User, sc: Scanner) returns (r: UserResult)
    ensures r == ResultOf(u, sc)
  {
    var mastodonIds := FoundIds(u, sc);
    var extras: Option<seq<string>> := None;
    if mastodonIds == multiset{} {
      extras := CollectExtras(u.bio);
    }
    r := UserResult(u.id, u.name, u.screenname, u.bio, mastodonIds, extras);
  }

  /**
    The loop of lines 53-74: each user is appended to `results1` when it has
    identities, to `results2` when instead it has keyword lines, and to
    neither otherwise, so that the two lists are the classified records of
    the users in input order.
   */
  method ExtractMastodonIds(users: seq<User>, sc: Scanner)
    returns (results1: seq<UserResult>, results2: seq<UserResult>)
    ensures results1 == Results1(Results(users, sc))
    ensures results2 == Results2(Results(users, sc))
    ensures forall r :: r in results1 ==> IdentityRecord(r)
    ensures forall r :: r in results2 ==> KeywordRecord(r)
    ensures |results1| + |results2| <= |users|
    ensures forall i :: 0 <= i < |users| ==>
              (ResultOf(users[i], sc) in results1 <==> FoundIds(users[i], sc) != multiset{})
    ensures forall i :: 0 <= i < |users| ==>
              (ResultOf(users[i], sc) in results2 <==>
                 FoundIds(users[i], sc) == multiset{} && exists d :: d in SplitLines(users[i].bio) && KeywordMatch(d))
  {
    results1, results2 := [], [];
    ghost var records: seq<UserResult> := [];
    var i := 0;
    assert users[..0] == [];
    assert records == Results(users[..0], sc);
    while i < |users|
      invariant 0 <= i <= |users|
      invariant records == Results(users[..i], sc)
      invariant results1 == Results1(records)
      invariant results2 == Results2(records)
    {
      var r := ClassifyUser(users[i], sc);
      ResultsStep(users, i, sc);
      BucketsStep(records, r);
      if r.mastodonIds != multiset{} {
        results1 := results1 + [r];
      } else if r.extras.Some? {
        results2 := results2 + [r];
      }
      assert records + [r] == Results(users[..i + 1], sc);
      records := records + [r];
      i := i + 1;
    }
    assert users[..|users|] == users;
    ResultsConsistent(users, sc);
    BucketRecords(Results(users, sc));
    BucketsBounded(Results(users, sc));
    UserPlacement(users, sc);
  }
}
