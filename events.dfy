/**
 * The event normaliser of the server: a GitHub event, tagged by its `type`
 * string, is turned into a small details record that keeps only the fields
 * the client displays. The ten known event kinds are a closed enumeration
 * with an explicit arm for every other type string.
 */
module Events {
  import opened Wrappers
  import opened Text

  // ---------------------------------------------------------------------------
  // The raw event, as delivered by the upstream event feed. Every payload
  // field the formatters read is optional, as it is in the untyped JSON.

  datatype Commit = Commit(message: Option<string>, sha: string)
  datatype PullRequest = PullRequest(title: Option<string>, number: Option<int>, state: Option<string>)
  datatype Issue = Issue(title: Option<string>, number: Option<int>, state: Option<string>)
  datatype Comment = Comment(body: Option<string>)
  datatype Forkee = Forkee(fullName: Option<string>)
  datatype Release = Release(name: Option<string>, tagName: Option<string>)

  datatype Payload = Payload(
    commits: Option<seq<Commit>>,
    ref: Option<string>,
    size: Option<int>,
    refType: Option<string>,
    description: Option<string>,
    action: Option<string>,
    pullRequest: Option<PullRequest>,
    issue: Option<Issue>,
    comment: Option<Comment>,
    forkee: Option<Forkee>,
    release: Option<Release>)

  datatype Repo = Repo(name: string, url: Option<string>)

  datatype Event = Event(id: string, eventType: string, repo: Repo, createdAt: string, payload: Payload)

  // ---------------------------------------------------------------------------
  // The normalised details, one shape per kind. `NoDetails` is the empty
  // record `{}`, which both `PublicEvent` and every unknown type produce.

  datatype CommitSummary = CommitSummary(message: Option<string>, sha: string)

  datatype Details =
    | PushDetails(commits: seq<CommitSummary>, branch: Option<string>, commitCount: int)
    | CreateDetails(refType: Option<string>, ref: Option<string>, description: Option<string>)
    | PullRequestDetails(action: Option<string>, title: Option<string>, number: Option<int>, state: Option<string>)
    | IssuesDetails(action: Option<string>, title: Option<string>, number: Option<int>, state: Option<string>)
    | IssueCommentDetails(action: Option<string>, issueTitle: Option<string>, issueNumber: Option<int>, commentBody: string)
    | WatchDetails(action: Option<string>)
    | ForkDetails(forkee: Option<string>)
    | DeleteDetails(refType: Option<string>, ref: Option<string>)
    | ReleaseDetails(action: Option<string>, releaseName: Option<string>, tagName: Option<string>)
    | NoDetails

  /** A formatted event as the server sends it and as the client stores it back. */
  datatype Activity = Activity(
    id: Option<string>,
    eventType: string,
    repo: Repo,
    createdAt: string,
    details: Details,
    isReadLater: bool,
    isFavorite: bool)

  // ---------------------------------------------------------------------------
  // The dispatch table

  datatype EventKind =
    | PushEvent | CreateEvent | PullRequestEvent | IssuesEvent | IssueCommentEvent
    | WatchEvent | ForkEvent | DeleteEvent | PublicEvent | ReleaseEvent
    | UnknownEvent

  /** The type string under which each known kind appears in the formatter table. */
  function KindName(k: EventKind): string
    requires k != UnknownEvent
  {
    match k
    case PushEvent => "PushEvent"
    case CreateEvent => "CreateEvent"
    case PullRequestEvent => "PullRequestEvent"
    case IssuesEvent => "IssuesEvent"
    case IssueCommentEvent => "IssueCommentEvent"
    case WatchEvent => "WatchEvent"
    case ForkEvent => "ForkEvent"
    case DeleteEvent => "DeleteEvent"
    case PublicEvent => "PublicEvent"
    case ReleaseEvent => "ReleaseEvent"
  }

  /** The lookup `EVENT_FORMATTERS[event.type]`: a known kind, or `UnknownEvent` when the table has no entry. */
  function KindOf(t: string): (k: EventKind)
    ensures k != UnknownEvent ==> KindName(k) == t
  {
    if t == "PushEvent" then PushEvent
    else if t == "CreateEvent" then CreateEvent
    else if t == "PullRequestEvent" then PullRequestEvent
    else if t == "IssuesEvent" then IssuesEvent
    else if t == "IssueCommentEvent" then IssueCommentEvent
    else if t == "WatchEvent" then WatchEvent
    else if t == "ForkEvent" then ForkEvent
    else if t == "DeleteEvent" then DeleteEvent
    else if t == "PublicEvent" then PublicEvent
    else if t == "ReleaseEvent" then ReleaseEvent
    else UnknownEvent
  }

  /** Every known kind is found under its own name. */
  lemma KindOfName(k: EventKind)
    requires k != UnknownEvent
    ensures KindOf(KindName(k)) == k
  {
  }

  /** A type string is unknown exactly when it is none of the ten names in the table. */
  lemma UnknownExactly(t: string)
    ensures KindOf(t) == UnknownEvent <==> forall k :: k != UnknownEvent ==> KindName(k) != t
  {
    if KindOf(t) != UnknownEvent {
      assert KindName(KindOf(t)) == t;
    }
  }

  // ---------------------------------------------------------------------------
  // Field helpers

  /** `sha.substring(0, 7)`. */
  function ShortSha(sha: string): string {
    Prefix(sha, 7)
  }

  /** A hash of at least seven characters is cut to its first seven; a shorter one passes through. */
  lemma ShortShaFacts(sha: string)
    ensures |sha| >= 7 ==> ShortSha(sha) == sha[..7]
    ensures |sha| < 7 ==> ShortSha(sha) == sha
    ensures |ShortSha(sha)| == if |sha| < 7 then |sha| else 7
  {
  }

  const HeadsPrefix := "refs/heads/"

  /** `ref.replace('refs/heads/', '')`: the first occurrence is removed, wherever it is. */
  function BranchName(ref: string): string {
    ReplaceFirst(ref, HeadsPrefix, "")
  }

  /** A ref that starts with `refs/heads/` loses exactly that prefix. */
  lemma BranchOfHeadsRef(name: string)
    ensures BranchName(HeadsPrefix + name) == name
  {
    var ref := HeadsPrefix + name;
    assert ref[0..|HeadsPrefix|] == HeadsPrefix;
    ReplaceFirstAt(ref, HeadsPrefix, "", 0);
    assert ref[|HeadsPrefix|..] == name;
  }

  /** The occurrence removed is the first one anywhere in the ref, not only a prefix. */
  lemma BranchRemovesFirstOccurrence(ref: string, i: nat)
    requires OccursAt(ref, HeadsPrefix, i)
    requires forall j :: 0 <= j < i ==> !OccursAt(ref, HeadsPrefix, j)
    ensures BranchName(ref) == ref[..i] + ref[i + |HeadsPrefix|..]
    ensures |BranchName(ref)| == |ref| - |HeadsPrefix|
  {
    ReplaceFirstAt(ref, HeadsPrefix, "", i);
  }

  /** A ref without `refs/heads/` anywhere (a tag ref, say) is kept as it is. */
  lemma BranchWithoutHeads(ref: string)
    requires forall i :: !OccursAt(ref, HeadsPrefix, i)
    ensures BranchName(ref) == ref
  {
    ReplaceFirstAbsent(ref, HeadsPrefix, "");
  }

  /** `comment?.body?.substring(0, 100) + '...'`: a missing body becomes the text `undefined`. Lengths count scalar values, not UTF-16 code units. */
  function CommentBody(comment: Option<Comment>): (r: string)
    ensures |r| <= 103 && |r| >= 3 && r[|r| - 3..] == "..."
    ensures comment.Some? && comment.value.body.Some? ==>
      var b := comment.value.body.value;
      |r| - 3 == (if |b| < 100 then |b| else 100) && r[..|r| - 3] == b[..|r| - 3]
    ensures comment.None? || comment.value.body.None? ==> r == "undefined..."
  {
    match comment
    case Some(Comment(Some(b))) => Prefix(b, 100) + "..."
    case _ => "undefined..."
  }

  // ---------------------------------------------------------------------------
  // One formatter per kind

  function FormatPush(p: Payload): Details {
    PushDetails(
      match p.commits
      case Some(cs) => seq(|cs|, i requires 0 <= i < |cs| => CommitSummary(cs[i].message, ShortSha(cs[i].sha)))
      case None => [],
      match p.ref
      case Some(r) => Some(BranchName(r))
      case None => None,
      match p.size
      case Some(n) => n  // `size || 0`: a zero size gives 0 either way
      case None => 0)
  }

  function FormatCreate(p: Payload): Details {
    CreateDetails(p.refType, p.ref, p.description)
  }

  function FormatPullRequest(p: Payload): Details {
    match p.pullRequest
    case Some(pr) => PullRequestDetails(p.action, pr.title, pr.number, pr.state)
    case None => PullRequestDetails(p.action, None, None, None)
  }

  function FormatIssues(p: Payload): Details {
    match p.issue
    case Some(issue) => IssuesDetails(p.action, issue.title, issue.number, issue.state)
    case None => IssuesDetails(p.action, None, None, None)
  }

  function FormatIssueComment(p: Payload): Details {
    IssueCommentDetails(
      p.action,
      if p.issue.Some? then p.issue.value.title else None,
      if p.issue.Some? then p.issue.value.number else None,
      CommentBody(p.comment))
  }

  function FormatWatch(p: Payload): Details {
    WatchDetails(p.action)
  }

  function FormatFork(p: Payload): Details {
    ForkDetails(if p.forkee.Some? then p.forkee.value.fullName else None)
  }

  function FormatDelete(p: Payload): Details {
    DeleteDetails(p.refType, p.ref)
  }

  function FormatRelease(p: Payload): Details {
    match p.release
    case Some(r) => ReleaseDetails(p.action, r.name, r.tagName)
    case None => ReleaseDetails(p.action, None, None)
  }

  /** `formatEventDetails`: the formatter the type selects, or `{}` when there is none. */
  function FormatEventDetails(e: Event): (r: Details)
    ensures r.NoDetails? <==> KindOf(e.eventType) == PublicEvent || KindOf(e.eventType) == UnknownEvent
  {
    match KindOf(e.eventType)
    case PushEvent => FormatPush(e.payload)
    case CreateEvent => FormatCreate(e.payload)
    case PullRequestEvent => FormatPullRequest(e.payload)
    case IssuesEvent => FormatIssues(e.payload)
    case IssueCommentEvent => FormatIssueComment(e.payload)
    case WatchEvent => FormatWatch(e.payload)
    case ForkEvent => FormatFork(e.payload)
    case DeleteEvent => FormatDelete(e.payload)
    case PublicEvent => NoDetails
    case ReleaseEvent => FormatRelease(e.payload)
    case UnknownEvent => NoDetails
  }

  // ---------------------------------------------------------------------------
  // Properties of the normaliser

  /** An event whose type is none of the ten known kinds normalises to the empty record. */
  lemma UnknownTypeGivesEmpty(e: Event)
    requires forall k :: k != UnknownEvent ==> KindName(k) != e.eventType
    ensures FormatEventDetails(e) == NoDetails
  {
    UnknownExactly(e.eventType);
  }

  /** The record built for each kind has that kind's shape, and only the empty record is shared (by `PublicEvent` and unknown types). */
  lemma DetailsShape(e: Event)
    ensures var d := FormatEventDetails(e);
      match KindOf(e.eventType)
      case PushEvent => d.PushDetails?
      case CreateEvent => d.CreateDetails?
      case PullRequestEvent => d.PullRequestDetails?
      case IssuesEvent => d.IssuesDetails?
      case IssueCommentEvent => d.IssueCommentDetails?
      case WatchEvent => d.WatchDetails?
      case ForkEvent => d.ForkDetails?
      case DeleteEvent => d.DeleteDetails?
      case PublicEvent => d.NoDetails?
      case ReleaseEvent => d.ReleaseDetails?
      case UnknownEvent => d.NoDetails?
  {
  }

  /**
   * A push event's commit list keeps the length and order of the payload's list (or is
   * empty when the payload has none); each message is kept and each hash shortened.
   */
  lemma PushCommits(e: Event)
    requires KindOf(e.eventType) == PushEvent
    ensures var d := FormatEventDetails(e);
      && d.PushDetails?
      && (e.payload.commits.None? ==> d.commits == [])
      && (e.payload.commits.Some? ==>
            var cs := e.payload.commits.value;
            && |d.commits| == |cs|
            && forall i :: 0 <= i < |cs| ==>
                 && d.commits[i].message == cs[i].message
                 && d.commits[i].sha == cs[i].sha[..if |cs[i].sha| < 7 then |cs[i].sha| else 7])
  {
    var d := FormatEventDetails(e);
    if e.payload.commits.Some? {
      var cs := e.payload.commits.value;
      forall i | 0 <= i < |cs|
        ensures d.commits[i].sha == cs[i].sha[..if |cs[i].sha| < 7 then |cs[i].sha| else 7]
      {
        ShortShaFacts(cs[i].sha);
      }
    }
  }

  /** A push event's count is the payload's `size` when it is non-zero and 0 otherwise, and its branch is derived from `ref`. */
  lemma PushCountAndBranch(e: Event)
    requires KindOf(e.eventType) == PushEvent
    ensures var d := FormatEventDetails(e);
      && d.PushDetails?
      && d.commitCount == e.payload.size.GetOr(0)
      && (e.payload.ref.None? ==> d.branch.None?)
      && (e.payload.ref.Some? ==> d.branch == Some(BranchName(e.payload.ref.value)))
  {
  }

  /** A release keeps both its name and its tag, with no fallback from one to the other. */
  lemma ReleaseKeepsBoth(e: Event)
    requires KindOf(e.eventType) == ReleaseEvent
    requires e.payload.release.Some?
    ensures FormatEventDetails(e) ==
      ReleaseDetails(e.payload.action, e.payload.release.value.name, e.payload.release.value.tagName)
  {
  }

  /** An issue comment's body always ends with the ellipsis and is at most 103 characters long. */
  lemma CommentBodyBound(e: Event)
    requires KindOf(e.eventType) == IssueCommentEvent
    ensures var d := FormatEventDetails(e);
      && d.IssueCommentDetails?
      && |d.commentBody| <= 103
      && d.commentBody[|d.commentBody| - 3..] == "..."
  {
  }
}
