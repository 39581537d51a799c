/**
 * The `Link` response header of the GitHub API (the format of section 3 of
 * RFC 8288): a comma-separated list of `<url>; rel="name"` entries. The
 * server splits the header on commas, keeps for each piece the first match
 * of `<([^>]+)>;\s*rel="([^"]+)"`, and collects the matches into an object
 * from relation name to URL. The `page` parameter of the `last` URL, found
 * by `[?&]page=(\d+)`, gives the total page count. Both regular expressions
 * are written out here as scanners; neither is anchored, so each match is
 * the leftmost one in its string.
 */
module Links {
  import opened Wrappers
  import opened Text

  // ---------------------------------------------------------------------------
  // Scanning helpers

  /** The first index at or after `from` holding `c`. */
  function FindChar(s: string, c: char, from: nat): (r: Option<nat>)
    ensures r.Some? ==> from <= r.value < |s| && s[r.value] == c
    ensures r.Some? ==> forall k :: from <= k < r.value ==> s[k] != c
    ensures r.None? ==> forall k :: from <= k < |s| ==> s[k] != c
    decreases |s| - from
  {
    if from >= |s| then None
    else if s[from] == c then Some(from)
    else FindChar(s, c, from + 1)
  }

  /** The end of the run of `\s` characters that starts at `from` (the greedy `\s*`). */
  function SkipWhitespace(s: string, from: nat): (r: nat)
    requires from <= |s|
    ensures from <= r <= |s|
    ensures forall k :: from <= k < r ==> IsWhitespace(s[k])
    ensures r < |s| ==> !IsWhitespace(s[r])
    decreases |s| - from
  {
    if from < |s| && IsWhitespace(s[from]) then SkipWhitespace(s, from + 1) else from
  }

  /** The end of the run of `\d` characters that starts at `from` (the greedy `\d+`). */
  function SkipDigits(s: string, from: nat): (r: nat)
    requires from <= |s|
    ensures from <= r <= |s|
    ensures forall k :: from <= k < r ==> IsDigit(s[k])
    ensures r < |s| ==> !IsDigit(s[r])
    decreases |s| - from
  {
    if from < |s| && IsDigit(s[from]) then SkipDigits(s, from + 1) else from
  }

  // ---------------------------------------------------------------------------
  // One link entry: `<([^>]+)>;\s*rel="([^"]+)"`

  const RelOpen := "rel=\""

  /**
   * What it means for the link pattern to match `seg` at `i`, with the
   * closing `>` at `j`, `rel="` at `k` and the closing quote at `m`:
   * `<` url `>` `;` blanks `rel="` name `"`. The captures are
   * `seg[i + 1..j]` and `seg[k + 5..m]`.
   */
  ghost predicate LinkMatch(seg: string, i: nat, j: nat, k: nat, m: nat) {
    && i + 1 < j && j + 2 <= k && k + 5 < m < |seg|
    && seg[i] == '<' && (forall n :: i < n < j ==> seg[n] != '>') && seg[j] == '>' && seg[j + 1] == ';'
    && (forall n :: j + 2 <= n < k ==> IsWhitespace(seg[n])) && OccursAt(seg, RelOpen, k)
    && (forall n :: k + 5 <= n < m ==> seg[n] != '"') && seg[m] == '"'
  }

  /** The link pattern tried at index `i` only: the captured URL and relation name. */
  function MatchLinkAt(seg: string, i: nat): (r: Option<(string, string)>)
    ensures r.Some? ==> |r.value.0| > 0 && |r.value.1| > 0
  {
    if i >= |seg| || seg[i] != '<' then None else MatchLinkAfterBracket(seg, i)
  }

  /** The rest of the link pattern, once `seg[i]` is the opening `<`. */
  function MatchLinkAfterBracket(seg: string, i: nat): (r: Option<(string, string)>)
    requires i < |seg|
    ensures r.Some? ==> |r.value.0| > 0 && |r.value.1| > 0
  {
    match FindChar(seg, '>', i + 1)
    case None => None
    case Some(j) =>
      if j == i + 1 || j + 1 >= |seg| || seg[j + 1] != ';' then None
      else MatchRelation(seg, i, j, SkipWhitespace(seg, j + 2))
  }

  /** The `rel="name"` part, once the URL ends at `j` and the blanks after the semicolon at `k`. */
  function MatchRelation(seg: string, i: nat, j: nat, k: nat): (r: Option<(string, string)>)
    requires i + 1 < j <= k <= |seg|
    ensures r.Some? ==> |r.value.0| > 0 && |r.value.1| > 0
  {
    if !OccursAt(seg, RelOpen, k) then None
    else match FindChar(seg, '"', k + 5)
      case None => None
      case Some(m) => if m == k + 5 then None else Some((seg[i + 1..j], seg[k + 5..m]))
  }

  /** What the scanner finds at `i` is a match of the pattern, with the captures it reports. */
  lemma MatchLinkAtSound(seg: string, i: nat)
    requires MatchLinkAt(seg, i).Some?
    ensures exists j: nat, k: nat, m: nat :: LinkMatch(seg, i, j, k, m) && MatchLinkAt(seg, i).value == (seg[i + 1..j], seg[k + 5..m])
  {
    assert MatchLinkAt(seg, i) == MatchLinkAfterBracket(seg, i);
    var j := FindChar(seg, '>', i + 1).value;
    var k := SkipWhitespace(seg, j + 2);
    assert MatchLinkAfterBracket(seg, i) == MatchRelation(seg, i, j, k);
    var m := FindChar(seg, '"', k + 5).value;
    assert LinkMatch(seg, i, j, k, m);
  }

  /** Every match of the pattern at `i` is the one the scanner finds: at a fixed start the captures are unique. */
  lemma MatchLinkAtComplete(seg: string, i: nat, j: nat, k: nat, m: nat, url: string, rel: string)
    requires LinkMatch(seg, i, j, k, m) && seg[i + 1..j] == url && seg[k + 5..m] == rel
    ensures MatchLinkAt(seg, i) == Some((url, rel))
  {
    FindCharAt(seg, '>', i + 1, j);
    assert !IsWhitespace(seg[k]) by { assert seg[k] == seg[k..k + 5][0]; }
    SkipWhitespaceTo(seg, j + 2, k);
    FindCharAt(seg, '"', k + 5, m);
    AfterBracketFrom(seg, i, j, k, m);
  }

  /** The scanner's result once its three searches have stopped at `j`, `k` and `m`. */
  lemma AfterBracketFrom(seg: string, i: nat, j: nat, k: nat, m: nat)
    requires i < |seg| && seg[i] == '<'
    requires FindChar(seg, '>', i + 1) == Some(j) && i + 1 < j && j + 1 < |seg| && seg[j + 1] == ';'
    requires SkipWhitespace(seg, j + 2) == k && OccursAt(seg, RelOpen, k)
    requires FindChar(seg, '"', k + 5) == Some(m) && k + 5 < m
    ensures MatchLinkAt(seg, i) == Some((seg[i + 1..j], seg[k + 5..m]))
  {
    assert MatchRelation(seg, i, j, k) == Some((seg[i + 1..j], seg[k + 5..m]));
    assert MatchLinkAfterBracket(seg, i) == MatchRelation(seg, i, j, k);
  }

  /** `FindChar` stops at the first `c`. */
  lemma FindCharAt(s: string, c: char, from: nat, j: nat)
    requires from <= j < |s| && s[j] == c && forall n :: from <= n < j ==> s[n] != c
    ensures FindChar(s, c, from) == Some(j)
  {
  }

  /** `SkipWhitespace` stops at the first character that is not `\s`. */
  lemma SkipWhitespaceTo(s: string, from: nat, k: nat)
    requires from <= k < |s| && !IsWhitespace(s[k]) && forall n :: from <= n < k ==> IsWhitespace(s[n])
    ensures SkipWhitespace(s, from) == k
  {
  }

  /** No index in `[from, upto)` starts a match. */
  ghost predicate NoLinkMatchIn(seg: string, from: nat, upto: nat) {
    forall j :: from <= j < upto ==> MatchLinkAt(seg, j).None?
  }

  /** The leftmost index at or after `from` where the link pattern matches. */
  function FirstLinkIndex(seg: string, from: nat): (r: Option<nat>)
    ensures r.Some? ==> from <= r.value < |seg| && MatchLinkAt(seg, r.value).Some? && NoLinkMatchIn(seg, from, r.value)
    ensures r.None? ==> NoLinkMatchIn(seg, from, |seg|)
    decreases |seg| - from
  {
    if from >= |seg| then None
    else if MatchLinkAt(seg, from).Some? then Some(from)
    else FirstLinkIndex(seg, from + 1)
  }

  /** `seg.match(/<([^>]+)>;\s*rel="([^"]+)"/)`: the URL and relation name of the leftmost match. */
  function LinkMatchOf(seg: string): (r: Option<(string, string)>)
    ensures r.Some? ==> |r.value.0| > 0 && |r.value.1| > 0
  {
    match FirstLinkIndex(seg, 0)
    case None => None
    case Some(i) => MatchLinkAt(seg, i)
  }

  /** No index at all starts a match when the leftmost search finds none. */
  lemma LinkMatchOfNone(seg: string)
    requires LinkMatchOf(seg).None?
    ensures forall i :: MatchLinkAt(seg, i).None?
  {
  }

  /** `seg` holds a link entry, and its leftmost one names the relation `rel`. */
  predicate DeclaresRel(seg: string, rel: string) {
    LinkMatchOf(seg).Some? && LinkMatchOf(seg).value.1 == rel
  }

  // ---------------------------------------------------------------------------
  // The `reduce` over the comma-separated pieces

  /** The relation object after folding `segments` from left to right, each match assigning `acc[rel] = url`. */
  function Collect(segments: seq<string>): (links: map<string, string>)
    ensures forall rel :: rel in links ==> |links[rel]| > 0
    decreases |segments|
  {
    if segments == [] then map[]
    else Absorb(Collect(segments[..|segments| - 1]), LinkMatchOf(segments[|segments| - 1]))
  }

  /** One step of the `reduce`: a match assigns `acc[rel] = url`, no match leaves `acc` as it is. */
  function Absorb(acc: map<string, string>, m: Option<(string, string)>): (r: map<string, string>)
    requires m.Some? ==> |m.value.0| > 0
    ensures (forall rel :: rel in acc ==> |acc[rel]| > 0) ==> (forall rel :: rel in r ==> |r[rel]| > 0)
  {
    match m
    case None => acc
    case Some((url, rel)) => acc[rel := url]
  }

  /** The fold over `xs + [seg]` absorbs the match of `seg` into the fold over `xs`. */
  lemma CollectSnoc(xs: seq<string>, seg: string)
    ensures Collect(xs + [seg]) == Absorb(Collect(xs), LinkMatchOf(seg))
  {
    assert (xs + [seg])[..|xs|] == xs;
  }

  /** `response.headers.link || ''`. */
  function HeaderText(header: Option<string>): string {
    header.GetOr("")
  }

  /** The relation object the server builds from the header. */
  function LinksOf(header: Option<string>): map<string, string> {
    Collect(Split(HeaderText(header), ','))
  }

  /** The `reduce` of the server, with its accumulator updated in place. */
  method ParseLinkHeader(header: Option<string>) returns (links: map<string, string>)
    ensures links == LinksOf(header)
  {
    var text := if header.Some? then header.value else "";
    var segments := Split(text, ',');
    links := map[];
    var i := 0;
    while i < |segments|
      invariant 0 <= i <= |segments|
      invariant links == Collect(segments[..i])
    {
      CollectNext(segments, i);
      var m := LinkMatchOf(segments[i]);
      if m.Some? {
        links := links[m.value.1 := m.value.0];
      }
      i := i + 1;
    }
    assert segments[..|segments|] == segments;
  }

  /** The fold over the first `i + 1` pieces is the fold over the first `i` followed by piece `i`. */
  lemma CollectNext(segments: seq<string>, i: nat)
    requires i < |segments|
    ensures Collect(segments[..i + 1]) == Absorb(Collect(segments[..i]), LinkMatchOf(segments[i]))
  {
    assert segments[..i + 1] == segments[..i] + [segments[i]];
    CollectSnoc(segments[..i], segments[i]);
  }

  // ---------------------------------------------------------------------------
  // Properties of the fold

  /** One step of the fold: the last piece adds its relation, if it declares one, to those of the pieces before. */
  lemma CollectStep(segments: seq<string>, rel: string)
    requires segments != []
    ensures rel in Collect(segments) <==>
      rel in Collect(segments[..|segments| - 1]) || DeclaresRel(segments[|segments| - 1], rel)
  {
  }

  /** Some element of `xs` satisfies `p`. */
  ghost predicate AnySatisfies<T>(xs: seq<T>, p: T -> bool) {
    exists k :: 0 <= k < |xs| && p(xs[k])
  }

  lemma AnySatisfiesStep<T>(xs: seq<T>, p: T -> bool)
    requires xs != []
    ensures AnySatisfies(xs, p) <==> AnySatisfies(xs[..|xs| - 1], p) || p(xs[|xs| - 1])
  {
    var init := xs[..|xs| - 1];
    if AnySatisfies(init, p) {
      var k :| 0 <= k < |init| && p(init[k]);
      assert xs[k] == init[k];
    }
    if AnySatisfies(xs, p) {
      var k :| 0 <= k < |xs| && p(xs[k]);
      if k < |init| { assert init[k] == xs[k]; }
    }
  }

  /** Some piece of `segments` declares `rel`. */
  ghost predicate Declared(segments: seq<string>, rel: string) {
    AnySatisfies(segments, seg => DeclaresRel(seg, rel))
  }

  lemma DeclaredStep(segments: seq<string>, rel: string)
    requires segments != []
    ensures Declared(segments, rel) <==>
      Declared(segments[..|segments| - 1], rel) || DeclaresRel(segments[|segments| - 1], rel)
  {
    AnySatisfiesStep(segments, seg => DeclaresRel(seg, rel));
  }

  /** A relation is in the object exactly when some piece declares it. */
  lemma {:induction false} CollectKeys(segments: seq<string>, rel: string)
    ensures rel in Collect(segments) <==> Declared(segments, rel)
    decreases |segments|
  {
    if segments != [] {
      CollectKeys(segments[..|segments| - 1], rel);
      CollectStep(segments, rel);
      DeclaredStep(segments, rel);
    }
  }

  /** The URL kept for a relation is the one of the last piece that declares it: later pieces overwrite earlier ones. */
  lemma {:induction false} CollectLastWins(segments: seq<string>, k: nat, rel: string)
    requires k < |segments| && DeclaresRel(segments[k], rel)
    requires forall k' :: k < k' < |segments| ==> !DeclaresRel(segments[k'], rel)
    ensures rel in Collect(segments) && Collect(segments)[rel] == LinkMatchOf(segments[k]).value.0
    decreases |segments|
  {
    var init := segments[..|segments| - 1];
    if k < |segments| - 1 {
      forall k' | k < k' < |init| ensures !DeclaresRel(init[k'], rel) {
        assert init[k'] == segments[k'];
      }
      assert init[k] == segments[k];
      CollectLastWins(init, k, rel);
      assert !DeclaresRel(segments[|segments| - 1], rel);
    }
  }

  /** A piece without a link entry changes nothing, wherever it stands. */
  lemma {:induction false} CollectIgnores(before: seq<string>, seg: string, after: seq<string>)
    requires LinkMatchOf(seg).None?
    ensures Collect(before + [seg] + after) == Collect(before + after)
    decreases |after|
  {
    if after == [] {
      assert before + [seg] + after == before + [seg] && before + after == before;
      CollectSnoc(before, seg);
    } else {
      var init := after[..|after| - 1];
      var last := after[|after| - 1];
      CollectIgnores(before, seg, init);
      AppendLast(before + [seg], after);
      AppendLast(before, after);
      CollectSnoc(before + [seg] + init, last);
      CollectSnoc(before + init, last);
    }
  }

  lemma AppendLast<T>(xs: seq<T>, ys: seq<T>)
    requires ys != []
    ensures xs + ys == (xs + ys[..|ys| - 1]) + [ys[|ys| - 1]]
  {
    assert ys == ys[..|ys| - 1] + [ys[|ys| - 1]];
  }

  /** An absent or empty header gives an empty object. */
  lemma EmptyHeader(header: Option<string>)
    requires header.None? || header.value == ""
    ensures LinksOf(header) == map[]
  {
    assert Split("", ',') == [""];
    assert Collect([""]) == Collect([""][..0]);
  }

  // ---------------------------------------------------------------------------
  // The page number of the `last` URL: `[?&]page=(\d+)`

  const PageParam := "page="

  /** What it means for the page pattern to match `url` at `i` with the digit run `digits`. */
  ghost predicate PageMatch(url: string, i: nat, digits: string) {
    var d := i + 6;
    && d + |digits| <= |url|
    && (url[i] == '?' || url[i] == '&') && url[i + 1..d] == PageParam
    && url[d..d + |digits|] == digits
    && |digits| > 0 && (forall n :: 0 <= n < |digits| ==> IsDigit(digits[n]))
    && (d + |digits| == |url| || !IsDigit(url[d + |digits|]))
  }

  /** The page pattern tried at index `i` only: the number its digits spell. */
  function PageAt(url: string, i: nat): Option<nat> {
    if i + 6 >= |url| || !(url[i] == '?' || url[i] == '&') || !OccursAt(url, PageParam, i + 1) then None
    else
      var e := SkipDigits(url, i + 6);
      if e == i + 6 then None else Some(DecimalValue(url[i + 6..e]))
  }

  /** What the scanner finds at `i` is a match of the pattern, with the number of its digit run. */
  lemma PageAtSound(url: string, i: nat)
    requires PageAt(url, i).Some?
    ensures exists digits :: PageMatch(url, i, digits) && PageAt(url, i) == Some(DecimalValue(digits))
  {
    var e := SkipDigits(url, i + 6);
    var digits := url[i + 6..e];
    assert PageMatch(url, i, digits);
  }

  /** Every match of the page pattern at `i` is the one the scanner finds. */
  lemma PageAtComplete(url: string, i: nat, digits: string)
    requires PageMatch(url, i, digits)
    ensures PageAt(url, i) == Some(DecimalValue(digits))
  {
    var d := i + 6;
    forall n | d <= n < d + |digits| ensures IsDigit(url[n]) {
      assert url[n] == digits[n - d];
    }
    assert url[d] == digits[0];
    assert OccursAt(url, PageParam, i + 1);
    assert SkipDigits(url, d) == d + |digits|;
  }

  /** No index in `from..upto` starts a page match. */
  ghost predicate NoPageMatchIn(url: string, from: nat, upto: nat) {
    forall j :: from <= j < upto ==> PageAt(url, j).None?
  }

  /** The leftmost index at or after `from` where the page pattern matches. */
  function FirstPageIndex(url: string, from: nat): (r: Option<nat>)
    ensures r.Some? ==> from <= r.value < |url| && PageAt(url, r.value).Some? && NoPageMatchIn(url, from, r.value)
    ensures r.None? ==> NoPageMatchIn(url, from, |url|)
    decreases |url| - from
  {
    if from >= |url| then None
    else if PageAt(url, from).Some? then Some(from)
    else FirstPageIndex(url, from + 1)
  }

  /** `parseInt(url.match(/[?&]page=(\d+)/)[1])`, or `None` when the URL has no such parameter. */
  function LastPageNumber(url: string): Option<nat> {
    match FirstPageIndex(url, 0)
    case None => None
    case Some(i) => PageAt(url, i)
  }

  /** No position of `s` holds `?` or `&`, so the page pattern cannot start in it. */
  predicate NoQueryMarks(s: string) {
    forall j :: 0 <= j < |s| ==> s[j] != '?' && s[j] != '&'
  }

  /** The page scan passes over a stretch without `?` and `&`. */
  lemma {:induction false} FirstPageSkips(url: string, from: nat, upto: nat)
    requires from <= upto <= |url|
    requires NoQueryMarks(url[from..upto])
    ensures FirstPageIndex(url, from) == FirstPageIndex(url, upto)
    decreases upto - from
  {
    if from < upto {
      assert url[from] == url[from..upto][0];
      assert PageAt(url, from).None?;
      assert url[from + 1..upto] == url[from..upto][1..];
      FirstPageSkips(url, from + 1, upto);
    }
  }

  const PerPageParam := "?per_page="

  /** `?per_page=` is not a page parameter: the pattern needs `?` or `&` right before `page=`. */
  lemma PerPageSkipped(url: string, at: nat)
    requires at + 10 <= |url| && url[at..at + 10] == PerPageParam
    ensures FirstPageIndex(url, at) == FirstPageIndex(url, at + 10)
  {
    assert url[at + 2] == PerPageParam[2];
    assert !OccursAt(url, PageParam, at + 1) by {
      assert url[at + 1..at + 6][1] == url[at + 2];
    }
    assert url[at + 1..at + 10] == PerPageParam[1..];
    assert NoQueryMarks(PerPageParam[1..]);
    FirstPageSkips(url, at + 1, at + 10);
  }

  /** A URL ending in `&page=` and digits from index `at` on has that page number there. */
  lemma PageAtEnd(url: string, at: nat, digits: string)
    requires |digits| > 0 && AllDigits(digits)
    requires at <= |url| && url[at..] == "&page=" + digits
    ensures FirstPageIndex(url, at) == Some(at) && PageAt(url, at) == Some(DecimalValue(digits))
  {
    var tail := "&page=" + digits;
    assert url[at] == tail[0];
    assert url[at + 1..at + 6] == tail[1..6];
    assert url[at + 6..at + 6 + |digits|] == tail[6..];
    assert PageMatch(url, at, digits);
    PageAtComplete(url, at, digits);
  }

  /** The scan passes over a path without `?` or `&` and then over `?per_page=` and its digits. */
  lemma PerPageQuerySkipped(url: string, path: string, perPage: string)
    requires NoQueryMarks(path) && AllDigits(perPage)
    requires |path + PerPageParam + perPage| <= |url|
    requires url[..|path + PerPageParam + perPage|] == path + PerPageParam + perPage
    ensures FirstPageIndex(url, 0) == FirstPageIndex(url, |path + PerPageParam + perPage|)
  {
    var pre := path + PerPageParam + perPage;
    var at := |path|;
    var a := |pre|;
    assert url[0..at] == path by { assert pre[0..at] == path; }
    FirstPageSkips(url, 0, at);
    assert url[at..at + 10] == PerPageParam by { assert pre[at..at + 10] == PerPageParam; }
    PerPageSkipped(url, at);
    assert url[at + 10..a] == perPage by { assert pre[at + 10..a] == perPage; }
    assert NoQueryMarks(perPage) by {
      forall j | 0 <= j < |perPage| ensures perPage[j] != '?' && perPage[j] != '&' {
        assert IsDigit(perPage[j]);
      }
    }
    FirstPageSkips(url, at + 10, a);
  }

  /** The URL GitHub puts under `last`: the page count is the number after `&page=`. */
  lemma GitHubLastPage(path: string, perPage: string, digits: string)
    requires NoQueryMarks(path) && AllDigits(perPage)
    requires |digits| > 0 && AllDigits(digits)
    ensures LastPageNumber(path + PerPageParam + perPage + "&page=" + digits) == Some(DecimalValue(digits))
  {
    var pre := path + PerPageParam + perPage;
    var url := pre + ("&page=" + digits);
    assert url == path + PerPageParam + perPage + "&page=" + digits;
    assert url[..|pre|] == pre;
    PerPageQuerySkipped(url, path, perPage);
    assert url[|pre|..] == "&page=" + digits;
    PageAtEnd(url, |pre|, digits);
  }

  /** A URL whose only query parameter is `per_page` has no page number, so the count falls back to the current page. */
  lemma PerPageOnlyHasNoPage(path: string, perPage: string)
    requires NoQueryMarks(path) && AllDigits(perPage)
    ensures LastPageNumber(path + PerPageParam + perPage) == None
  {
    var url := path + PerPageParam + perPage;
    var at := |path|;
    assert url[0..at] == path;
    FirstPageSkips(url, 0, at);
    assert url[at..at + 10] == PerPageParam;
    PerPageSkipped(url, at);
    assert url[at + 10..] == perPage;
    assert NoQueryMarks(perPage) by {
      forall j | 0 <= j < |perPage| ensures perPage[j] != '?' && perPage[j] != '&' {
        assert IsDigit(perPage[j]);
      }
    }
    FirstPageSkips(url, at + 10, |url|);
  }

  // ---------------------------------------------------------------------------
  // Headers written the way GitHub writes them

  /** One entry: `<url>; rel="name"`. */
  function Entry(url: string, rel: string): string {
    "<" + url + ">; " + RelOpen + rel + "\""
  }

  /** An entry whose parts stay inside their delimiters and hold no comma. */
  predicate ValidEntry(url: string, rel: string) {
    && |url| > 0 && '>' !in url && ',' !in url
    && |rel| > 0 && '"' !in rel && ',' !in rel
  }

  predicate ValidEntries(entries: seq<(string, string)>) {
    forall k :: 0 <= k < |entries| ==> ValidEntry(entries[k].0, entries[k].1)
  }

  /** The comma-separated pieces of a header listing `entries`, each after the first led by a blank. */
  function Pieces(entries: seq<(string, string)>): seq<string>
    decreases |entries|
  {
    if entries == [] then []
    else
      var last := entries[|entries| - 1];
      Pieces(entries[..|entries| - 1]) + [(if |entries| == 1 then "" else " ") + Entry(last.0, last.1)]
  }

  /** The header listing `entries`, joined by `, `. */
  function FormatHeader(entries: seq<(string, string)>): string
    requires |entries| >= 1
  {
    Join(Pieces(entries), ',')
  }

  /** The relations `entries` describe, a later entry overriding an earlier one with the same name. */
  function Relations(entries: seq<(string, string)>): map<string, string>
    decreases |entries|
  {
    if entries == [] then map[]
    else
      var last := entries[|entries| - 1];
      Relations(entries[..|entries| - 1])[last.1 := last.0]
  }

  /** The URL kept for a relation is the one of the last entry naming it, wherever that entry stands. */
  lemma {:induction false} RelationsLastDeclared(entries: seq<(string, string)>, k: nat, rel: string)
    requires k < |entries| && entries[k].1 == rel
    requires forall n :: k < n < |entries| ==> entries[n].1 != rel
    ensures rel in Relations(entries) && Relations(entries)[rel] == entries[k].0
    decreases |entries|
  {
    var init := entries[..|entries| - 1];
    if k < |entries| - 1 {
      assert init[k] == entries[k];
      forall n | k < n < |init| ensures init[n].1 != rel {
        assert init[n] == entries[n];
      }
      RelationsLastDeclared(init, k, rel);
    }
  }

  /** The characters of an entry standing at index `i` of `e`, position by position. */
  ghost predicate EntryLayout(e: string, i: nat, url: string, rel: string) {
    var n := |url|;
    && i + n + 10 + |rel| <= |e|
    && e[i] == '<' && (forall t :: 0 <= t < n ==> e[i + 1 + t] == url[t])
    && e[i + n + 1] == '>' && e[i + n + 2] == ';' && e[i + n + 3] == ' '
    && (forall t :: 0 <= t < 5 ==> e[i + n + 4 + t] == RelOpen[t])
    && (forall t :: 0 <= t < |rel| ==> e[i + n + 9 + t] == rel[t])
    && e[i + n + 9 + |rel|] == '"'
  }

  lemma EntryHasLayout(url: string, rel: string)
    ensures EntryLayout(Entry(url, rel), 0, url, rel)
  {
    var n := |url|;
    var a := "<" + url + ">; ";
    var b := a + RelOpen;
    var c := b + rel;
    assert Entry(url, rel) == c + "\"";
    assert forall t :: 0 <= t < n ==> a[1 + t] == url[t];
    assert a[n + 1] == '>' && a[n + 2] == ';' && a[n + 3] == ' ';
    assert forall t :: 0 <= t < 5 ==> b[n + 4 + t] == RelOpen[t];
    assert forall t :: 0 <= t < |rel| ==> c[n + 9 + t] == rel[t];
  }

  /** The layout survives when the entry stands at index `i` of a longer string. */
  lemma LayoutShift(t: string, s: string, i: nat, url: string, rel: string)
    requires EntryLayout(t, 0, url, rel)
    requires i <= |s| && s[i..] == t
    ensures EntryLayout(s, i, url, rel)
  {
    assert forall x :: 0 <= x < |t| ==> s[i + x] == t[x];
  }

  /** A string laid out as an entry at `i` matches the link pattern there, with the URL and the name as captures. */
  lemma LayoutIsLinkMatch(e: string, i: nat, url: string, rel: string)
    requires ValidEntry(url, rel) && EntryLayout(e, i, url, rel)
    ensures var n := |url|;
      && LinkMatch(e, i, i + n + 1, i + n + 4, i + n + 9 + |rel|)
      && e[i + 1..i + n + 1] == url && e[i + n + 9..i + n + 9 + |rel|] == rel
  {
    var n := |url|;
    assert e[i + 1..i + n + 1] == url;
    assert e[i + n + 4..i + n + 9] == RelOpen;
    assert e[i + n + 9..i + n + 9 + |rel|] == rel;
    forall t | i + 1 <= t < i + n + 1 ensures e[t] != '>' {
      assert e[t] == url[t - (i + 1)];
    }
    forall t | i + n + 9 <= t < i + n + 9 + |rel| ensures e[t] != '"' {
      assert e[t] == rel[t - (i + n + 9)];
    }
  }

  /** The scanner finds a well-formed entry laid out at `i` there, with its own URL and name. */
  lemma EntryMatchesHere(seg: string, i: nat, url: string, rel: string)
    requires ValidEntry(url, rel) && EntryLayout(seg, i, url, rel)
    ensures MatchLinkAt(seg, i) == Some((url, rel))
  {
    var n := |url|;
    LayoutIsLinkMatch(seg, i, url, rel);
    MatchLinkAtComplete(seg, i, i + n + 1, i + n + 4, i + n + 9 + |rel|, url, rel);
  }

  /** An entry standing at index 0, or at index 1 after a blank, is the leftmost match of its piece. */
  lemma EntryMatchesAt(seg: string, i: nat, url: string, rel: string)
    requires ValidEntry(url, rel)
    requires i <= 1 && i <= |seg| && seg[i..] == Entry(url, rel)
    requires i == 1 ==> seg[0] == ' '
    ensures LinkMatchOf(seg) == Some((url, rel))
  {
    EntryHasLayout(url, rel);
    LayoutShift(Entry(url, rel), seg, i, url, rel);
    EntryMatchesHere(seg, i, url, rel);
    assert FirstLinkIndex(seg, i) == Some(i);
    if i == 1 {
      assert MatchLinkAt(seg, 0).None?;
      assert FirstLinkIndex(seg, 0) == FirstLinkIndex(seg, 1);
    }
  }

  /** A well-formed entry, alone or after the blank that follows a comma, is matched with its own URL and name. */
  lemma EntryMatches(lead: string, url: string, rel: string)
    requires lead == "" || lead == " "
    requires ValidEntry(url, rel)
    ensures LinkMatchOf(lead + Entry(url, rel)) == Some((url, rel))
  {
    var seg := lead + Entry(url, rel);
    assert seg[|lead|..] == Entry(url, rel);
    EntryMatchesAt(seg, |lead|, url, rel);
  }

  /** The pieces of a header: one per entry, none holding a comma. */
  lemma {:induction false} PiecesShape(entries: seq<(string, string)>)
    requires ValidEntries(entries)
    ensures |Pieces(entries)| == |entries|
    ensures forall k :: 0 <= k < |entries| ==> ',' !in Pieces(entries)[k]
    decreases |entries|
  {
    if entries != [] {
      var init := entries[..|entries| - 1];
      var last := entries[|entries| - 1];
      var lead := if |entries| == 1 then "" else " ";
      ValidEntriesPrefix(entries);
      PiecesShape(init);
      assert ValidEntry(last.0, last.1);
      assert ',' !in Entry(last.0, last.1);
      assert ',' !in lead + Entry(last.0, last.1);
    }
  }

  lemma ValidEntriesPrefix(entries: seq<(string, string)>)
    requires ValidEntries(entries) && entries != []
    ensures ValidEntries(entries[..|entries| - 1])
  {
    var init := entries[..|entries| - 1];
    forall k | 0 <= k < |init| ensures ValidEntry(init[k].0, init[k].1) {
      assert init[k] == entries[k];
    }
  }

  /** Folding the pieces of a header gives the relations its entries describe. */
  lemma {:induction false} CollectPieces(entries: seq<(string, string)>)
    requires ValidEntries(entries)
    ensures Collect(Pieces(entries)) == Relations(entries)
    decreases |entries|
  {
    if entries != [] {
      var init := entries[..|entries| - 1];
      var last := entries[|entries| - 1];
      var lead := if |entries| == 1 then "" else " ";
      ValidEntriesPrefix(entries);
      CollectPieces(init);
      assert Pieces(entries) == Pieces(init) + [lead + Entry(last.0, last.1)];
      CollectSnoc(Pieces(init), lead + Entry(last.0, last.1));
      EntryMatches(lead, last.0, last.1);
    }
  }

  /** Parsing a header written from `entries` gives back the relations they describe. */
  lemma ParseFormatHeader(entries: seq<(string, string)>)
    requires |entries| >= 1 && ValidEntries(entries)
    ensures LinksOf(Some(FormatHeader(entries))) == Relations(entries)
  {
    PiecesShape(entries);
    CollectPieces(entries);
    SplitJoin(Pieces(entries), ',');
  }
}
