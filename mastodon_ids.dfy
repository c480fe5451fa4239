/**
  A federated-network identity `user@host`, its two renderings, and the parser
  that turns a matched handle back into an identity.
 */
module MastodonIds {
  import opened Wrappers
  import opened Text

  /** The user part and the host part, kept verbatim (case preserved). */
  datatype MastodonID = MastodonID(user: string, host: string)

  /** The handle rendering `user@host`. */
  function ToString(id: MastodonID): string
  {
    id.user + "@" + id.host
  }

  /** The profile-URL rendering `https://host/@user`. */
  function Url(id: MastodonID): string
  {
    "https://" + id.host + "/@" + id.user
  }

  /** `s` with one leading `@` removed, if it has one. */
  function StripLeadingAt(s: string): string
  {
    if |s| > 0 && s[0] == '@' then s[1..] else s
  }

  /**
    Parses a handle: at most one leading `@` is dropped, and the rest must hold
    exactly one `@`, which separates the user part from the host part. Either
    part may be empty.
   */
  function ParseId(s: string): (r: Option<MastodonID>)
    ensures r.Some? <==> Count(StripLeadingAt(s), '@') == 1
    ensures r.Some? ==> ToString(r.value) == StripLeadingAt(s)
    ensures r.Some? ==> '@' !in r.value.user && '@' !in r.value.host
  {
    var parts := Split(StripLeadingAt(s), '@');
    if |parts| != 2 then None
    else
      assert Join(parts, '@') == parts[0] + "@" + parts[1];
      Some(MastodonID(parts[0], parts[1]))
  }

  /** A parsed handle is the input itself, or the input without its one leading `@`. */
  lemma ParsedIsInput(s: string)
    requires ParseId(s).Some?
    ensures s == ToString(ParseId(s).value) || s == "@" + ToString(ParseId(s).value)
  {
    if |s| > 0 && s[0] == '@' {
      assert s == "@" + s[1..];
    }
  }

  /**
    Rendering an identity as `user@host` and parsing it back gives the same
    identity exactly when neither part holds an `@` and the user part is not
    empty (an empty user part would make the `@` look like a leading one).
   */
  lemma ParseToString(id: MastodonID)
    ensures ParseId(ToString(id)) == Some(id)
        <==> id.user != "" && '@' !in id.user && '@' !in id.host
  {
    var s := ToString(id);
    if id.user != "" && '@' !in id.user && '@' !in id.host {
      assert s[0] == id.user[0];
      SplitAround(id.user, id.host, '@');
    }
  }

  /** The mention form `@user@host` parses to `(user, host)`, empty parts included. */
  lemma ParseMention(id: MastodonID)
    requires '@' !in id.user && '@' !in id.host
    ensures ParseId("@" + ToString(id)) == Some(id)
  {
    assert StripLeadingAt("@" + ToString(id)) == ToString(id);
    SplitAround(id.user, id.host, '@');
  }

  lemma ParseExamples()
    ensures ParseId("@@a@b") == None
    ensures ParseId("abc") == None
    ensures ParseId("a@") == Some(MastodonID("a", ""))
    ensures ParseId("") == None
  {
    assert StripLeadingAt("@@a@b") == "@a@b";
    assert Count("@a@b", '@') == 2 by {
      assert "@a@b"[1..] == "a@b" && "a@b"[1..] == "@b" && "@b"[1..] == "b" && "b"[1..] == "";
    }
    assert Count("abc", '@') == 0 by {
      assert "abc"[1..] == "bc" && "bc"[1..] == "c" && "c"[1..] == "";
    }
    assert "a@" == "a" + "@" + "";
    SplitAround("a", "", '@');
  }
}
