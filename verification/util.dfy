/**
 * Helpers shared by the issue list and the feedback dialog (src/util.ts): the
 * label and maintainer allow-lists, the cache-entry builder, the choice of the
 * last maintainer comment, and the classification of a tracker response. The
 * tracker itself is an oracle: a map from request URL to the reply it gives.
 */
module Util {
  import opened Wrappers
  import opened GithubIssue
  import opened Text

  /** Labels by which a maintainer asks the reporter for feedback. */
  const FEEDBACK_REQUIRED_LABELS: seq<string> := ["help wanted", "waiting for reply"]

  /** Logins whose comments count as maintainer comments. */
  const VORTEX_DEVS: seq<string> := ["TanninOne", "IDCs"]

  predicate IsFeedbackRequiredLabel(name: string)
    ensures IsFeedbackRequiredLabel(name) <==> name == "help wanted" || name == "waiting for reply"
  {
    name in FEEDBACK_REQUIRED_LABELS
  }

  predicate IsVortexDev(comment: Comment)
    ensures IsVortexDev(comment) <==> comment.user.login == "TanninOne" || comment.user.login == "IDCs"
  {
    comment.user.login in VORTEX_DEVS
  }

  function LabelNames(labels: seq<Label>): (names: seq<string>)
    ensures |names| == |labels|
    ensures forall i :: 0 <= i < |labels| ==> names[i] == labels[i].name
  {
    seq(|labels|, i requires 0 <= i < |labels| => labels[i].name)
  }

  function MilestoneSummary(m: Milestone): MilestoneCache {
    MilestoneCache(m.number, m.state, m.title, m.closedIssues, m.openIssues, m.dueOn)
  }

  /**
   * The fields both cache builders fill in the same way; `now` is the
   * `Date.now()` of the moment the entry is built.
   */
  function BaseEntry(input: Issue, now: int): IssueCache {
    IssueCache(
      number := input.number,
      title := input.title,
      state := input.state,
      user := if input.user.Some? then Some(input.user.value.login) else None,
      body := input.body,
      createdTime := input.createdAt,
      closedTime := input.closedAt,
      comments := input.comments,
      labels := LabelNames(input.labels),
      lastUpdated := input.updatedAt,
      milestone := if input.milestone.Some? then Some(MilestoneSummary(input.milestone.value)) else None,
      cacheTime := Some(now),
      notifiedForReply := None,
      lastCommentResponseMS := None)
  }

  /** `cacheEntry`: a cache record for `input` that remembers the answered maintainer comment. */
  function CacheEntry(input: Issue, lastCommentResponseMS: int, now: int): (e: IssueCache)
    ensures e.number == input.number && e.comments == input.comments && e.state == input.state
    ensures e.title == input.title && e.body == input.body
    ensures |e.labels| == |input.labels|
    ensures forall i :: 0 <= i < |input.labels| ==> e.labels[i] == input.labels[i].name
    ensures e.user.Some? <==> input.user.Some?
    ensures e.user.Some? ==> e.user.value == input.user.value.login
    ensures e.milestone.Some? <==> input.milestone.Some?
    ensures e.milestone.Some? ==>
      var m := input.milestone.value;
      e.milestone.value.number == m.number && e.milestone.value.title == m.title
      && e.milestone.value.state == m.state && e.milestone.value.closedIssues == m.closedIssues
      && e.milestone.value.openIssues == m.openIssues && e.milestone.value.dueOn == m.dueOn
    ensures e.createdTime == input.createdAt && e.lastUpdated == input.updatedAt
    ensures e.closedTime == input.closedAt
    ensures e.lastCommentResponseMS == Some(lastCommentResponseMS)
    ensures e.cacheTime == Some(now) && e.notifiedForReply.None?
  {
    BaseEntry(input, now).(lastCommentResponseMS := Some(lastCommentResponseMS))
  }

  /** The last maintainer-authored comment in list order, if any. */
  function LastDevComment(comments: seq<Comment>): (r: Option<Comment>)
    ensures r.None? <==> forall i :: 0 <= i < |comments| ==> !IsVortexDev(comments[i])
    ensures r.Some? ==> IsVortexDev(r.value)
    ensures r.Some? ==> exists k :: 0 <= k < |comments| && comments[k] == r.value &&
                                    forall m :: k < m < |comments| ==> !IsVortexDev(comments[m])
  {
    if comments == [] then None
    else if IsVortexDev(comments[|comments| - 1]) then Some(comments[|comments| - 1])
    else LastDevComment(comments[..|comments| - 1])
  }

  /** Why a tracker request failed. */
  datatype FetchError =
    | NetworkError
    | HttpStatus(code: int)
    | UnexpectedContentType(contentType: Option<string>)
    | MalformedBody
    | DuplicateChainTooDeep

  /** A response: status code, declared content type, and the body parsed as JSON (`None` if it does not parse). */
  datatype Response<T> = Response(status: int, contentType: Option<string>, payload: Option<T>)

  /** What a request gets back: no connection at all, or a response. */
  datatype Reply<T> = NoConnection | Answered(response: Response<T>)

  /**
   * The tracker's answers, by request URL: issue URLs answer with an issue,
   * comment-list URLs with a list of comments. A URL the map lacks gets no
   * connection.
   */
  datatype Tracker = Tracker(issueReplies: map<string, Reply<Issue>>, commentReplies: map<string, Reply<seq<Comment>>>)

  /** The content-type test `/^application\/json/`; an absent header is tested as the text "undefined". */
  predicate IsJsonContentType(contentType: Option<string>) {
    contentType.Some? && StartsWith(contentType.value, "application/json")
  }

  /** The checks `requestFromApi` makes on a response, status first. */
  function Classify<T>(r: Response<T>): (res: Result<T, FetchError>)
    ensures res.Success? <==> r.status == 200 && IsJsonContentType(r.contentType) && r.payload.Some?
    ensures res.Success? ==> res.value == r.payload.value
    ensures r.status != 200 ==> res == Failure(HttpStatus(r.status))
    ensures r.status == 200 && !IsJsonContentType(r.contentType) ==> res == Failure(UnexpectedContentType(r.contentType))
  {
    if r.status != 200 then Failure(HttpStatus(r.status))
    else if !IsJsonContentType(r.contentType) then Failure(UnexpectedContentType(r.contentType))
    else if r.payload.None? then Failure(MalformedBody)
    else Success(r.payload.value)
  }

  /**
   * `requestFromApi(url)` against the oracle: a request without a connection
   * fails; one that succeeds got a 200 response whose body is the value.
   */
  function RequestFromApi<T>(replies: map<string, Reply<T>>, url: string): (r: Result<T, FetchError>)
    ensures url !in replies || replies[url].NoConnection? ==> r == Failure(NetworkError)
    ensures url in replies && replies[url].Answered? ==> r == Classify(replies[url].response)
    ensures r.Success? ==>
      && url in replies && replies[url].Answered? && replies[url].response.status == 200
      && replies[url].response.payload == Some(r.value)
  {
    if url !in replies || replies[url].NoConnection? then Failure(NetworkError)
    else Classify(replies[url].response)
  }

  /** `getLastDevComment`: fetch the comment list, then pick the last maintainer comment. */
  function GetLastDevComment(tracker: Tracker, issue: Issue): (r: Result<Option<Comment>, FetchError>)
    ensures r.Failure? <==> RequestFromApi(tracker.commentReplies, issue.commentsUrl).Failure?
    ensures r.Success? && r.value.Some? ==>
      var comments := RequestFromApi(tracker.commentReplies, issue.commentsUrl).value;
      IsVortexDev(r.value.value) && r.value.value in comments
    ensures r.Success? && r.value.None? ==>
      forall c :: c in RequestFromApi(tracker.commentReplies, issue.commentsUrl).value ==> !IsVortexDev(c)
    ensures r.Success? ==> r.value == LastDevComment(RequestFromApi(tracker.commentReplies, issue.commentsUrl).value)
  {
    match RequestFromApi(tracker.commentReplies, issue.commentsUrl)
    case Failure(e) => Failure(e)
    case Success(comments) => Success(LastDevComment(comments))
  }
}
