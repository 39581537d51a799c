# GitHub activity tracker: the server's shaping layer, in Dafny

This project models the request-shaping core of a small GitHub activity
tracker. An Express server fetches a user's public event feed and returns
it, one page at a time, to a React client. The client can also save events
as "read later" or "favorite". The model covers:

- **Event normaliser** (`Events`). The formatter table of the server, written
  as a closed enumeration of the ten known event kinds plus an explicit
  `UnknownEvent` arm. One formatter per kind builds the details record the
  client displays. The JavaScript semantics the formatters depend on are kept:
  optional chaining becomes `Option`, `size || 0` becomes a default, and
  `substring(0, n)` keeps the first `min(n, length)` characters, counted as
  Unicode scalar values rather than UTF-16 code units (see "## Left out").
  `replace` with a string pattern removes only the first occurrence. A
  missing comment body gives the text `undefined...`.
- **Link header parser** (`Links`). The scanner that finds the leftmost match
  of `<([^>]+)>;\s*rel="([^"]+)"` with JavaScript's `\s`. The `reduce` over the
  comma-separated pieces, which the server runs with an accumulator; here it
  is a method whose loop is proved against the fold function `Collect`. The
  scanner for the `[?&]page=(\d+)` parameter of the `last` URL.
- **Changes handler** (`Changes`). `GET /api/changes`: the username check,
  the zeroed page the server answers when a call fails, the page count with
  its fallback to the requested page, the next/previous flags, the item
  estimate, and per-event formatting with the saved flags.
- **Saved items** (`SavedItems`). The two in-memory JavaScript `Map`s
  (read-later, favorites) as a class `Store`. `set` overwrites in place,
  `delete` of a missing key does nothing, and listing returns the values in
  the order their keys were inserted. A key that is deleted and stored again
  goes to the end. The abstract state is `Entries`: keys in insertion order
  plus a map.
- **Search filter** (`ActivityFilter`). The client's `filterActivities`: an
  empty term returns the list unchanged. Otherwise it keeps the activities
  whose lower-cased type or repository name contains the lower-cased term.
- `Text` holds the string built-ins these rely on. `Wrappers` holds `Option`.

The model keeps these behaviours of the code, which are easy to get wrong:

- A release's name has no fallback to its tag name. Both are copied as given
  (`Events.ReleaseKeepsBoth`). The fallback exists only in the client's
  renderer, which is not part of this model.
- A missing comment body is not an absent field. It becomes the string
  `undefined...`, because `undefined + '...'` is string concatenation.
- The ref prefix `refs/heads/` is removed at its first occurrence anywhere in
  the ref, not only at the start.
- The "zeroed" page after a failure keeps `currentPage` 1 and `itemsPerPage` 15.
- The current page is whatever `parseInt` gave, so any integer. It is not
  restricted to positive numbers. When there is no usable `last` link, the page
  count is that number.
- An unknown event type and `PublicEvent` both give the empty record `{}`.

## Model

| member | source | states |
|---|---|---|
| Events.KindOf | backend/server.js:83 | the table lookup finds a known kind only under exactly that kind's name |
| Events.KindOfName | backend/server.js:18-75 | each of the ten table entries is found under its own name |
| Events.UnknownExactly | backend/server.js:83-84 | a type string is unknown exactly when it is none of the ten names |
| Events.FormatEventDetails | backend/server.js:82-85 | the details record is the empty record exactly when the type is `PublicEvent` or not in the table; the other kinds' shapes are stated by `Events.DetailsShape` |
| Events.FormatPush | backend/server.js:19-26 | the `PushEvent` formatter; no contract of its own, its result is stated by `Events.PushCommits` and `Events.PushCountAndBranch` |
| Events.FormatCreate | backend/server.js:28-32 | the `CreateEvent` formatter, copying `ref_type`, `ref` and `description`; no contract of its own, its shape is stated by `Events.DetailsShape` |
| Events.FormatPullRequest | backend/server.js:34-39 | the `PullRequestEvent` formatter, with the pull request's fields absent when it is; no contract of its own, its shape is stated by `Events.DetailsShape` |
| Events.FormatIssues | backend/server.js:41-46 | the `IssuesEvent` formatter, with the issue's fields absent when it is; no contract of its own, its shape is stated by `Events.DetailsShape` |
| Events.FormatIssueComment | backend/server.js:48-53 | the `IssueCommentEvent` formatter; no contract of its own, its body is stated by `Events.CommentBody` and `Events.CommentBodyBound` |
| Events.FormatWatch | backend/server.js:55-57 | the `WatchEvent` formatter, keeping only the action; no contract of its own, its shape is stated by `Events.DetailsShape` |
| Events.FormatFork | backend/server.js:59-61 | the `ForkEvent` formatter, keeping the fork's full name or nothing; no contract of its own, its shape is stated by `Events.DetailsShape` |
| Events.FormatDelete | backend/server.js:63-66 | the `DeleteEvent` formatter, copying `ref_type` and `ref`; no contract of its own, its shape is stated by `Events.DetailsShape` |
| Events.FormatRelease | backend/server.js:70-74 | the `ReleaseEvent` formatter; no contract of its own, its result is stated by `Events.ReleaseKeepsBoth` |
| Events.ShortSha | backend/server.js:22 | `sha.substring(0, 7)`; no contract of its own, its result is stated by `Events.ShortShaFacts` |
| Events.BranchName | backend/server.js:24 | `ref.replace('refs/heads/', '')`; no contract of its own, its result is stated by `Events.BranchOfHeadsRef`, `Events.BranchRemovesFirstOccurrence` and `Events.BranchWithoutHeads` |
| Events.UnknownTypeGivesEmpty | backend/server.js:84 | an unknown type normalises to the empty record |
| Events.DetailsShape | backend/server.js:18-85 | every kind gets its own record shape; only `PublicEvent` and unknown types share the empty record |
| Events.ShortShaFacts | backend/server.js:22 | a hash is cut to its first seven characters, and a shorter one passes through unchanged |
| Events.BranchOfHeadsRef | backend/server.js:24 | a ref starting with `refs/heads/` loses exactly that prefix |
| Events.BranchRemovesFirstOccurrence | backend/server.js:24 | the first occurrence of `refs/heads/`, wherever it is, is the one removed |
| Events.BranchWithoutHeads | backend/server.js:24 | a ref without `refs/heads/` is kept as it is |
| Events.CommentBody | backend/server.js:52 | the body is cut to at most 100 scalar values of the original, and `...` is always appended; a missing body gives `undefined...` |
| Events.PushCommits | backend/server.js:20-23 | commit summaries keep the payload's length and order, message and shortened hash; no commit list gives an empty list |
| Events.PushCountAndBranch | backend/server.js:24-25 | the count is the payload size or 0; the branch is absent with the ref and otherwise derived from it |
| Events.ReleaseKeepsBoth | backend/server.js:70-74 | a release keeps its name and tag separately, with no fallback |
| Events.CommentBodyBound | backend/server.js:48-53 | an issue comment's body is at most 103 characters long and ends with the ellipsis |
| Links.MatchLinkAt | backend/server.js:133 | a match at a fixed index captures a non-empty URL and a non-empty relation name |
| Links.MatchLinkAtSound | backend/server.js:133 | what the scanner reports at an index is a match of the link pattern there, with those captures |
| Links.MatchLinkAtComplete | backend/server.js:133 | every match of the link pattern at an index is the one the scanner reports |
| Links.FirstLinkIndex | backend/server.js:133 | the index found is the leftmost one where the pattern matches, and none is found only when it matches nowhere |
| Links.LinkMatchOf | backend/server.js:133 | `match` gives the captures of the leftmost match, both non-empty |
| Links.LinkMatchOfNone | backend/server.js:133-134 | when `match` gives nothing, no index of the piece starts a match |
| Links.Absorb | backend/server.js:134-136 | one step of the `reduce`: a match sets the relation to its URL and no match leaves the object as it is; its contract keeps every stored URL non-empty, and `Links.CollectSnoc` and `Links.CollectIgnores` state its effect on the fold |
| Links.Collect | backend/server.js:132-138 | every URL stored in the relation object is non-empty, so `Boolean(links[rel])` is key presence |
| Links.ParseLinkHeader | backend/server.js:131-138 | the loop with its updated accumulator computes the fold over the split header |
| Links.CollectKeys | backend/server.js:132-138 | a relation is in the object exactly when some piece declares it |
| Links.CollectLastWins | backend/server.js:135 | the URL kept for a relation comes from the last piece that declares it |
| Links.CollectIgnores | backend/server.js:134 | a piece without a link entry changes nothing, wherever it stands |
| Links.HeaderText | backend/server.js:131 | `response.headers.link || ''`; no contract of its own, `Links.EmptyHeader` states that an absent or empty header gives an empty object |
| Links.EmptyHeader | backend/server.js:131 | an absent or empty header gives an empty object |
| Links.LinksOf | backend/server.js:131-138 | the relation object of a header; no contract of its own, its keys and values are stated by `Links.CollectKeys`, `Links.CollectLastWins` and `Links.ParseLinkHeader` |
| Links.SkipDigits | backend/server.js:143 | the greedy `\d+`: the end it returns closes a maximal run of digits starting at the given index |
| Links.PageAtSound | backend/server.js:143 | what the page scanner reports at an index is a match of `[?&]page=(\d+)` there, with the value of its digits |
| Links.PageAt | backend/server.js:143 | the page pattern tried at one index; no contract of its own, it is characterised by `Links.PageAtSound` and `Links.PageAtComplete` |
| Links.PageAtComplete | backend/server.js:143 | every match of the page pattern at an index is the one the scanner reports |
| Links.FirstPageIndex | backend/server.js:143 | the page match found is the leftmost in the URL, and none is found only when there is none |
| Links.LastPageNumber | backend/server.js:143-145 | `parseInt` of the first page match of the `last` URL; no contract of its own, its result is stated by `Links.GitHubLastPage` and `Links.PerPageOnlyHasNoPage` |
| Links.FirstPageSkips | backend/server.js:143 | the page match cannot start in a stretch without `?` and `&` |
| Links.PerPageSkipped | backend/server.js:143 | `?per_page=` is not a page parameter |
| Links.GitHubLastPage | backend/server.js:143-145 | in a `last` URL of the form `path?per_page=N&page=D` the page number is `D` |
| Links.PerPageOnlyHasNoPage | backend/server.js:143-144 | a URL whose only parameter is `per_page` has no page number |
| Links.EntryMatches | backend/server.js:133 | an entry `<url>; rel="name"`, alone or after a blank, is matched with its own URL and name |
| Links.RelationsLastDeclared | backend/server.js:135 | the URL kept for a relation is that of the last entry naming it, wherever that entry stands |
| Links.ParseFormatHeader | backend/server.js:131-138 | parsing a header written from well-formed entries gives back the relations they describe, later entries winning |
| Changes.GetChanges | backend/server.js:87-185 | no username gives the 400 answer; a failed call gives the zeroed page; otherwise every event is formatted in order, with the page count, both flags and the item estimate |
| Changes.FormatEvent | backend/server.js:149-157 | one event as sent, with its details and both saved flags; no contract of its own, `Changes.GetChanges` states that every event goes through it in order |
| Changes.TotalPages | backend/server.js:141-147 | the page count; no contract of its own, its cases are stated by `Changes.TotalPagesFromLast`, `Changes.TotalPagesWithoutLast` and `Changes.TotalPagesPerPageOnly` |
| Changes.TotalPagesFromLast | backend/server.js:141-147 | a header of well-formed entries whose last `last` entry, at any position, is `path?per_page=N&page=D` reports `D` pages, whatever page was requested; this covers GitHub's `next, last` and `prev, next, last, first` headers |
| Changes.EmptyFeed | backend/server.js:108-118 | the zeroed answer: no events, page 1 of 0, both flags false, 0 items, 15 per page; a constant with no contract, `Changes.GetChanges` states that both failures (server.js:106-118 and 171-183) answer with it |
| Changes.TotalPagesWithoutLast | backend/server.js:141-142 | without a `last` relation the page count is the requested page |
| Changes.TotalPagesPerPageOnly | backend/server.js:143-144 | a `last` URL without a page parameter leaves the count at the requested page |
| Changes.NeighbourFlags | backend/server.js:164-165 | the next and previous flags hold exactly when some piece declares that relation |
| SavedItems.RemoveKey | backend/server.js:206 | removing a key keeps every other key and drops that one |
| SavedItems.Set | backend/server.js:199 | `map.set(id, activity)`; no contract of its own, its effect is stated by `SavedItems.SetWellFormed`, `SavedItems.SetTwice`, `SavedItems.SetKeepsOneEntry` and `SavedItems.ValuesAfterSet` |
| SavedItems.Delete | backend/server.js:206 | `map.delete(id)`; no contract of its own, its effect is stated by `SavedItems.DeleteOnlyThatKey`, `SavedItems.DeleteAbsent` and `SavedItems.ValuesAfterDelete` |
| SavedItems.Values | backend/server.js:189 | `Array.from(map.values())`; no contract of its own, its result is stated by `SavedItems.ValuesCount`, `SavedItems.ValuesAfterSet` and `SavedItems.ValuesAfterDelete` |
| SavedItems.Accepts | backend/server.js:196 | the negated guard: a body is accepted exactly when it is present with a non-empty id; `SavedItems.Store.Add` states both outcomes |
| SavedItems.RemoveKeyAt | backend/server.js:206 | deleting a key held once closes the gap and keeps the other keys in their order |
| SavedItems.SetWellFormed | backend/server.js:199 | storing a snapshot under its own id keeps keys distinct, matching the map, and each value filed under its id |
| SavedItems.DeleteWellFormed | backend/server.js:206 | deleting keeps the collection well formed |
| SavedItems.SetTwice | backend/server.js:199 | storing twice under one id is storing the second snapshot once |
| SavedItems.SetKeepsOneEntry | backend/server.js:199 | after a store the id appears once in the key order, and the order grows only for a new id |
| SavedItems.DeleteIdempotent | backend/server.js:206 | deleting twice is deleting once |
| SavedItems.DeleteAbsent | backend/server.js:206 | deleting an id that is not stored changes nothing |
| SavedItems.DeleteOnlyThatKey | backend/server.js:206 | deleting removes that id and leaves every other stored snapshot as it was |
| SavedItems.DeleteUndoesAdd | backend/server.js:194-208 | adding a new id and then deleting it restores the collection |
| SavedItems.ValuesCount | backend/server.js:189 | the listing has one value per stored id and holds exactly the stored snapshots |
| SavedItems.ValuesAfterSet | backend/server.js:188-201 | a new id appends its snapshot to the listing; an existing id is replaced in its place |
| SavedItems.ValuesAfterDelete | backend/server.js:188-191 | deleting a stored id drops its snapshot from the listing and keeps the others in order; deleting a missing id leaves the listing as it is |
| SavedItems.ListAfterAddingTwice | backend/server.js:188-201 | two snapshots stored under one id list as the later one alone |
| SavedItems.Store.constructor | backend/server.js:11-12 | a new collection is empty |
| SavedItems.Store.Add | backend/server.js:194-201 | a body without a truthy id is rejected with `Invalid activity data` and changes nothing; otherwise the snapshot is stored under its id |
| SavedItems.Store.Remove | backend/server.js:204-208 | the id is deleted if present, and nothing else changes |
| SavedItems.Store.List | backend/server.js:188-191 | the snapshots are returned in insertion order, one per stored id |
| SavedItems.Store.Has | backend/server.js:155-156 | `map.has(id)`: whether the id is stored; no contract of its own, used by `Changes.FormatEvent` for both saved flags |
| SavedItems.AddTwiceThenList | backend/server.js:188-201 | adding one id twice to an empty store and listing gives only the second snapshot |
| ActivityFilter.KeepMatching | frontend/src/utils/filterUtils.js:11-14 | the result is no longer than the input, and every activity in it is from the input and matches |
| ActivityFilter.Matches | frontend/src/utils/filterUtils.js:12-13 | the filter's predicate on an already lower-cased term; no contract of its own, `ActivityFilter.KeepMatchingCounts` and `ActivityFilter.FilterKeepsExactly` state that the filter keeps exactly the activities it accepts |
| ActivityFilter.FilterActivities | frontend/src/utils/filterUtils.js:8 | an empty term returns the list as it is |
| ActivityFilter.KeepMatchingSubsequence | frontend/src/utils/filterUtils.js:11-14 | the kept activities are a subsequence of the input, in their order |
| ActivityFilter.FilterSubsequence | frontend/src/utils/filterUtils.js:7-15 | the filter only leaves activities out, keeping order |
| ActivityFilter.KeepMatchingCounts | frontend/src/utils/filterUtils.js:11-14 | a matching activity is kept as often as it occurs, and a non-matching one is dropped |
| ActivityFilter.FilterKeepsExactly | frontend/src/utils/filterUtils.js:7-15 | an activity is in the result exactly when it is in the input and kept, with the same multiplicity |
| ActivityFilter.KeepMatchingIdempotent | frontend/src/utils/filterUtils.js:11-14 | keeping the matches of the kept activities changes nothing |
| ActivityFilter.FilterIdempotent | frontend/src/utils/filterUtils.js:7-15 | filtering twice with one term is filtering once |
| ActivityFilter.FilterIgnoresCase | frontend/src/utils/filterUtils.js:10 | a term and its upper-cased form select the same activities |
| ActivityFilter.EmptyTermMatchesAll | frontend/src/utils/filterUtils.js:8 | the early return agrees with the general predicate, since every string includes the empty string |
| Text.Lower | frontend/src/utils/filterUtils.js:12-13 | lower-casing keeps the length and maps each character |
| Text.LowerOfUpper | frontend/src/utils/filterUtils.js:10 | lower-casing forgets an earlier upper-casing |
| Text.LowerIdempotent | frontend/src/utils/filterUtils.js:10-13 | lower-casing twice is lower-casing once |
| Text.Includes | frontend/src/utils/filterUtils.js:12-13 | `includes` holds exactly when the needle occurs at some index |
| Text.IncludesEmpty | frontend/src/utils/filterUtils.js:8 | every string includes the empty string |
| Text.IndexOfFrom | backend/server.js:24 | the search finds the leftmost occurrence, and none only when there is none |
| Text.ReplaceFirstAbsent | backend/server.js:24 | `replace` without an occurrence returns the string unchanged |
| Text.ReplaceFirst | backend/server.js:24 | `replace` with a string pattern; no contract of its own, its result is stated by `Text.ReplaceFirstAbsent` and `Text.ReplaceFirstAt` |
| Text.ReplaceFirstAt | backend/server.js:24 | `replace` rewrites exactly the first occurrence |
| Text.PrefixFacts | backend/server.js:22 | `substring(0, n)` is the prefix of length `min(n, length)` |
| Text.Prefix | backend/server.js:22 | `substring(0, n)` on scalar values; no contract of its own, its result is stated by `Text.PrefixFacts` |
| Text.IsWhitespace | backend/server.js:133 | the characters JavaScript's `\s` matches; a plain definition with no contract, used by `Links.SkipWhitespace` and the `LinkMatch` pattern of `Links.MatchLinkAtSound` and `Links.MatchLinkAtComplete` |
| Text.DecimalValue | backend/server.js:145 | `parseInt` of a run of decimal digits, read left to right; no contract beyond a natural result, `Links.GitHubLastPage` and `Changes.TotalPagesFromLast` state the page count it gives |
| Text.Split | backend/server.js:132 | `split` gives at least one piece, and no piece holds the separator |
| Text.JoinSplit | backend/server.js:132 | joining the pieces of a split gives the string back |
| Text.SplitJoin | backend/server.js:132 | splitting the join of separator-free pieces gives the pieces back |

## Left out

- HTTP transport, Express routing, CORS, JSON encoding, status codes other
  than the 400 answers, and the server start-up. They are plumbing.
- The two upstream GitHub calls. In `Changes.GetChanges` they are inputs:
  whether the existence check succeeded, and the event list plus `link`
  header, or `None` when the events call failed. Request headers and the
  token are not modelled.
- `parseInt(page)` of the query string. The current page is an `int` input,
  so `NaN` and a missing `page` being `1` are not modelled.
- `parseInt` of the page digits is exact. Precision beyond 2^53 is not modelled.
- Events.CommentBody: the cut at 100 and the bound of 103 count Unicode
  scalar values, while JavaScript's `substring` counts UTF-16 code units. A
  body of 60 emoji is kept whole here, while the server keeps 50 of them. A
  cut that would split a surrogate pair in JavaScript keeps the whole
  character here. Dafny's `char` cannot hold a lone surrogate.
- Text.Prefix: `substring(0, n)` is modelled on Unicode scalar values, not
  UTF-16 code units, for the same reason.
- PrefixFacts (`Text.PrefixFacts`): the length `min(n, length)` it states is
  counted in scalar values, not UTF-16 code units. For the seven-character
  hashes of `Events.ShortSha`, which are ASCII, the two agree.
- `toLowerCase` is modelled on ASCII letters only. Unicode case mapping
  (for example `ß`, or characters that change length) is not modelled.
- Type strings that are inherited names of `Object.prototype`, such as
  `constructor` or `toString`, would find a non-formatter in the table. A
  relation named `__proto__` would not become a key. Both are left out;
  type and relation names are treated as plain strings.
- A push commit without `sha` makes the server throw a `TypeError`, and so
  does an event without `payload` whose formatter reads it (every kind but
  `PublicEvent` and unknown types). The outer `catch` turns either into the
  zeroed page. The model requires a hash on every commit and a payload on
  every event, so this path is not modelled.
- Ids are strings, so `Map`'s SameValueZero comparison of numbers and
  strings is not modelled. `null` and `undefined` are one `None`, and JSON's
  dropping of `undefined` fields is not modelled.
- The per-event `isReadLater`/`isFavorite` lookups read the two stores; which
  store object the server uses for each is fixed by the caller.
- The client's React components, its services module, date formatting, and
  the client-side lists that mirror the saved items are not part of this
  model.
- Concurrency. The handlers run one at a time.
