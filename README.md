# Mastodon identities in followers' profiles

A model of the classification core of debirdify's
`main/extract_mastodon_ids.py`. The function goes through the accounts a user
follows. It looks for federated-network identities (`user@host`) in each
account's screen name and biography. Accounts with identities go to the first
result list. Accounts without identities, but with a biography line that
mentions `mastodon`, `toot` or `tröt`, go to the second list, together with
those lines.

Modules:

- `Wrappers`: the `Option` type that stands for Python's `None`-or-value.
- `Text`: the parts of Python's `str` that the code relies on.
  - `split` on a one-character separator.
  - `splitlines`, with Python's full set of line boundaries, where `\r\n` counts as one.
  - the `\s` class.
  - the case-insensitive comparison of literal words.
- `MastodonIds`: the `MastodonID` record, its `user@host` and
  `https://host/@user` renderings, and `parse_mastodon_id`.
- `FilterMaps`: the comprehension shapes the function uses, each with its own lemmas.
  - `Map`, a list of `f(x)`: its length and its `i`-th element (`MapIndex`), how often each result occurs (`MapCount`), and which results occur (`MapMembers`).
  - `Filter`, the elements that pass a test: input order kept (`FilterSubsequence`), how often each element is kept (`FilterCount`), and the bound for two tests no element passes together (`FilterDisjoint`).
  - `FilterMap`, the results of a partial function that are not `None`: their number (`FilterMapLength`), how often each occurs (`FilterMapCount`), and which occur (`FilterMapMembers`).
  - No lemma states an order for `FilterMap`: the identities end up in a multiset, which has none.
- `Patterns`: the three regular expressions, each stated as a grammar
  predicate on the text of one whole match.
  - Pattern A (`_id_pattern1`): one predicate per alternative.
  - The keyword pattern: a predicate on one line.
  - Pattern B (`_id_pattern2`): a relation between a matched URL and the group tuple `findall` reports for it.
- `Extract`: the `UserResult` record and the per-user loop.
  - `ExtractMastodonIds` is a method with a loop.
  - It is proved against the specification functions `Results`, `Results1` and `Results2`.
  - `UserPlacement` states, for every user, which list the user's record ends up in.
  - `BucketCounts` states that each list holds every record of its kind as often as the input does, and no other record.

Searching a whole text for matches (`findall`) is supplied from outside as a
`Scanner`: a function returning the Pattern A matches of a text, and a function
returning the Pattern B group tuples. `FaithfulScanner` requires every reported
string to be a whole Pattern A match occurring in the scanned text, and every
tuple to belong to a Pattern B match occurring in that text, with the host
group as written. `IntendedScanner` is the same with the intended host group.

The list of identities is a `multiset`. `MastodonID` defines no equality, so
the sets at lines 58-62 hold every freshly built object, and the list made from
them has no fixed order.

Where the code and its comments disagree, the model follows the code:

- The comment at line 44 says identities are looked for in the "name or bio".
  The code scans `username` (the screen name) and the description, never the
  display name. `FoundIdsMembers` states this.
- The character classes of Pattern A do not exclude `/` or `@`. The part of a
  leading-`@` handle's domain before its last dot also admits `,`. The
  predicates keep exactly these classes.

## Model

| member | source | states |
|---|---|---|
| MastodonIds.ParseId | main/extract_mastodon_ids.py:23-29 | after at most one leading `@` is dropped, the parse succeeds exactly when exactly one `@` remains; on success the rendering `user@host` is that remaining text, and neither part holds `@` |
| MastodonIds.ParsedIsInput | main/extract_mastodon_ids.py:24-25 | a successfully parsed string is the identity's `user@host` rendering, possibly preceded by a single `@` |
| MastodonIds.ParseToString | main/extract_mastodon_ids.py:18 | parsing the `user@host` rendering gives the identity back exactly when the user part is non-empty and neither part holds `@` |
| MastodonIds.ParseMention | main/extract_mastodon_ids.py:23-29 | the mention form `@user@host` parses to `(user, host)` whenever neither part holds `@`, empty parts included |
| MastodonIds.ParseExamples | main/extract_mastodon_ids.py:23-29 | `@@a@b`, `abc` and the empty string do not parse; `a@` parses to user `a` with an empty host |
| Text.Split | main/extract_mastodon_ids.py:26 | `split('@')` gives one more piece than there are separators; no piece holds the separator, and joining the pieces restores the text |
| Text.SplitAround | main/extract_mastodon_ids.py:26-27 | a text with exactly one separator splits into the text before it and the text after it |
| Text.LineEnd | main/extract_mastodon_ids.py:67 | the first line of a text ends at its first line boundary |
| Text.SplitLines | main/extract_mastodon_ids.py:67 | `splitlines` gives no line holding a boundary, and gives no lines exactly for the empty text |
| Text.LineEndAt | main/extract_mastodon_ids.py:67 | in a text `a`, boundary, rest, where `a` has no boundary, the first line ends right after `a` |
| Text.SplitLinesBoundary | main/extract_mastodon_ids.py:67 | a line without boundaries followed by one boundary character, not a `\r` that begins `\r\n`, is split off as the first line, and the rest is split on its own |
| Text.SplitLinesCrLf | main/extract_mastodon_ids.py:67 | a line followed by `\r\n` is split off as the first line: `\r\n` counts as one boundary |
| Text.SplitLinesLast | main/extract_mastodon_ids.py:67 | a non-empty text without boundaries is one line, so the last line needs no terminator |
| Patterns.PlainHandleMatch | main/extract_mastodon_ids.py:4-6 | a token `u@h` without a leading `@` is a Pattern A match exactly when both sides are handle text, `u` is non-empty, and `h` ends in `.social`, starts with `social.`, or has `mastodon` followed by at least one more character (in any case) |
| Patterns.SocialSuffixPartsSignal | main/extract_mastodon_ids.py:6 | the `.social` suffix alternative holds for a user part and a domain exactly when both are handle text, the user part is non-empty, and the domain ends in `.social` |
| Patterns.SocialPrefixPartsSignal | main/extract_mastodon_ids.py:6 | the `social.` prefix alternative holds exactly when both parts are handle text, the user part is non-empty, and the domain starts with `social.` |
| Patterns.MastodonPartsSignal | main/extract_mastodon_ids.py:6 | the `mastodon` alternative holds exactly when both parts are handle text, the user part is non-empty, and `mastodon` occurs in the domain with at least one character after it |
| Patterns.EmailNotMatchedOne | main/extract_mastodon_ids.py:4-6 | a token `u@h` whose domain has none of the three signs is not a Pattern A match |
| Patterns.SignalRequired | main/extract_mastodon_ids.py:4-6 | a token not starting with `@` is a Pattern A match only if the text after one of its `@` has one of the three signs, so an e-mail address without them is never matched |
| Patterns.EmailNotMatched | main/extract_mastodon_ids.py:5 | the e-mail addresses `foo@bar.com` and `bob@gmail.com` are not Pattern A matches |
| Patterns.MentionMatchParses | main/extract_mastodon_ids.py:6 | `@user@domain.tld` is a Pattern A match, and it parses to the user and the whole dotted domain |
| Patterns.MatchWithoutId | main/extract_mastodon_ids.py:59-60 | `a@b@x.social` is a Pattern A match that does not parse, so the parse filter at line 60 does remove matches |
| Patterns.KeywordMatchOnLine | main/extract_mastodon_ids.py:67-68 | on a line without line boundaries, the anchored keyword match succeeds exactly when the line contains a keyword in any case |
| Patterns.KeywordIn | main/extract_mastodon_ids.py:10 | a keyword in any case that begins before the first newline makes the text match |
| Patterns.KeywordExampleEnglish | main/extract_mastodon_ids.py:10 | `find me on Mastodon` matches the keyword pattern |
| Patterns.KeywordExampleGerman | main/extract_mastodon_ids.py:10 | `Ich TRÖTE hier` matches the keyword pattern, so `tröt` is matched in upper case too |
| Patterns.KeywordAfterNewline | main/extract_mastodon_ids.py:10 | the anchored match does not reach a keyword after a newline |
| Patterns.UrlMatchLosesHost | main/extract_mastodon_ids.py:7 | as written, the profile URL of `carol@mstdn.social` is matched with host group `l`, and no match of it yields the identity |
| Patterns.UrlTextOfUrl | main/extract_mastodon_ids.py:21 | the `url()` rendering of an identity whose parts are URL text, with or without a trailing `/`, has the scheme, host, `/@`, user, optional slash layout Pattern B expects |
| Patterns.UrlMatchIntendedUnique | main/extract_mastodon_ids.py:61 | with the intended host group, every match of an identity's profile URL, with or without a trailing `/`, gives back that identity, and its slash group is that `/` or empty |
| Patterns.UrlRoundTrip | main/extract_mastodon_ids.py:21 | with the intended host group, the profile URL of an identity, with or without a trailing `/`, is matched, and every match yields that identity |
| Extract.ParsedIdsSpec | main/extract_mastodon_ids.py:59-60 | one identity per candidate that parses: as many as the candidates minus those that fail, each identity as often as candidates parse to it, and an identity is among them exactly when some candidate parses to it |
| Extract.GroupIdsSpec | main/extract_mastodon_ids.py:61 | one identity per Pattern B tuple, the `i`-th named `(user=g3, host=g2)` by the `i`-th tuple, each as often as tuples name it, and exactly the identities some tuple names |
| Extract.FoundIdsCount | main/extract_mastodon_ids.py:58-62 | each identity is found once per Pattern A candidate that parses to it plus once per Pattern B tuple that names it |
| Extract.FoundIdsMembers | main/extract_mastodon_ids.py:58-62 | an identity is found for a user exactly when a Pattern A candidate of the screen name or biography parses to it, or a Pattern B tuple of either names it as `(user=g3, host=g2)` |
| Extract.FoundFromMatches | main/extract_mastodon_ids.py:59-61 | with a scanner of the patterns as written, each identity found is the parse of a Pattern A match occurring in the screen name or the biography, or comes from the groups of a Pattern B match occurring there and then has a one-character host |
| Extract.FoundFromMatchesIntended | main/extract_mastodon_ids.py:59-61 | with the intended Pattern B, each identity found is the parse of a Pattern A match in the screen name or the biography, or the user and host of a profile URL there |
| Extract.KeywordLinesSpec | main/extract_mastodon_ids.py:66-68 | the kept lines are a subsequence of the lines, holding each matching line as often as it occurs and no other line |
| Extract.ExtrasOfSpec | main/extract_mastodon_ids.py:63-69 | `extras` is `None` exactly when no line matches, and otherwise the non-empty list of matching lines in order |
| Extract.ExtrasByContainment | main/extract_mastodon_ids.py:63-69 | `extras` is `None` exactly when no line of the biography contains a keyword |
| Extract.CollectExtras | main/extract_mastodon_ids.py:66-69 | the loop over the biography's lines computes `ExtrasOf` |
| Extract.ResultsConsistent | main/extract_mastodon_ids.py:53-74 | one record per user, the `i`-th record being the `i`-th user's, and every record carries keyword lines only when it has no identities |
| Extract.BucketRecords | main/extract_mastodon_ids.py:71-74 | `results1` holds only records with identities and `extras = None`; `results2` only records without identities whose `extras` is the non-empty list of keyword lines |
| Extract.BucketCounts | main/extract_mastodon_ids.py:71-74 | `results1` holds every record with identities exactly as often as the records do, and nothing else; `results2` likewise for records without identities that have keyword lines |
| Extract.BucketsInOrder | main/extract_mastodon_ids.py:53-74 | each bucket is a subsequence of the users' records, in input order |
| Extract.BucketsBounded | main/extract_mastodon_ids.py:71-74 | together the two buckets hold at most as many records as there are users |
| Extract.BucketsConcat | main/extract_mastodon_ids.py:53-74 | classifying two runs of users one after the other gives the concatenated buckets |
| Extract.UserPlacement | main/extract_mastodon_ids.py:53-74 | for every `i`, the `i`-th user's record is in `results1` exactly when an identity is found for that user, and in `results2` exactly when none is found and some line of the biography has a keyword |
| Extract.BucketsStep | main/extract_mastodon_ids.py:71-74 | one more record is appended to `results1` when it has identities, else to `results2` when it has keyword lines, else to neither |
| Extract.ClassifyUser | main/extract_mastodon_ids.py:54-69 | the loop body builds the record `ResultOf` describes: the identities found, and the keyword lines only when there are none |
| Extract.ExtractMastodonIds | main/extract_mastodon_ids.py:50-76 | the returned lists are the two buckets of the users' records; every entry of each has the shape above; together they hold at most one entry per user; and each user's record is in `results1` exactly when an identity is found, and in `results2` exactly when none is found and a biography line has a keyword |

## Left out

- The directory-service call and the early return for a missing user (lines 47-48) are network I/O. The list of followed users is an input.
- Where `findall` starts and stops a match in a longer text is not modelled: backtracking, leftmost alternation order, the `\b` word boundaries. Scanning is the `Scanner` parameter; the pattern predicates say what one whole match is.
- Case-insensitive matching is ASCII lower-casing plus `Ö`/`ö`. Python's full Unicode case folding is not modelled.
- Identity-based deduplication and the arbitrary order of `list(set(...))` (line 62) are modelled as a multiset. No deduplication by value is claimed, and no order of identities.
- A missing (`None`) biography would make the code fail. The model takes the biography as a string.
- Pattern B's optional slash: the `(/)?` group and the `\b` after it are taken as whole-match text. How `\b` decides whether a trailing `/` is consumed is not modelled.
- MastodonID rendering: `ToString` and `Url` are stated by their definitions. Their properties are the round trips `ParseToString`, `ParseMention` and `UrlRoundTrip`.

## Findings

| source | as written | input that shows it | evidently intended | confidence | as-written member | corrected member |
|---|---|---|---|---|---|---|
| main/extract_mastodon_ids.py:7 | the host is captured by the repeated one-character group `([^\s(),:;#/])+`, which reports only its last repetition | `https://mstdn.social/@carol` yields host `l`, so line 61 builds `carol@l` | the group `([^\s(),:;#/]+)`, capturing the whole host | not executed; high, by the regex semantics of repeated groups | Patterns.UrlMatchLosesHost | Patterns.UrlRoundTrip |
