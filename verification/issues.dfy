/**
 * The issue list's synchronisation engine (src/Issues.tsx): duplicate
 * resolution, the staleness test, the cache record it writes, the serial
 * refresh over the user's issue ids with its batched notification, and the
 * projection of visible issues.
 */
module Issues {
  import opened Wrappers
  import opened GithubIssue
  import opened Text
  import opened Util
  import opened Redirects

  /** A cache entry older than this (milliseconds) is fetched again. */
  const UPDATE_FREQUENCY: int := 24 * 60 * 60 * 1000
  /** A closed issue without updates for this long is hidden. */
  const HIDE_AFTER: int := 30 * 24 * 60 * 60 * 1000
  /** Minimum time between two refreshes. */
  const MIN_REFRESH_DELAY: int := 60 * 1000
  const GITHUB_PROJ: string := "Nexus-Mods/Vortex"

  /** The API URL of an issue, for an id as text. */
  function IssueUrl(issueId: string): string {
    "https://api.github.com/repos/" + GITHUB_PROJ + "/issues/" + issueId
  }

  /** The page of an issue, as the notification links to it. */
  function IssuePageUrl(number: nat): string {
    "https://www.github.com/" + GITHUB_PROJ + "/issues/" + DecimalString(number)
  }

  predicate IsDuplicate(issue: Issue) {
    exists l :: l in issue.labels && l.name == "duplicate"
  }

  /** The issue carries a label asking the reporter for feedback. */
  predicate ReplyRequired(issue: Issue) {
    exists l :: l in issue.labels && IsFeedbackRequiredLabel(l.name)
  }

  /**
   * Where duplicate following stops: the issue is not labelled a duplicate,
   * or its comments were fetched and none of them redirects.
   */
  predicate Canonical(tracker: Tracker, issue: Issue) {
    !IsDuplicate(issue) ||
    (var comments := RequestFromApi(tracker.commentReplies, issue.commentsUrl);
     comments.Success? && LastRedirect(comments.value).None?)
  }

  /**
   * `requestIssue`: fetch an issue and, when it is labelled a duplicate,
   * follow its redirect. The source recurses without bound; `fuel` bounds the
   * number of redirects followed, and running out is a failure of its own.
   */
  function RequestIssue(tracker: Tracker, issueId: string, fuel: nat): (r: Result<Issue, FetchError>)
    decreases fuel, 1
    ensures r.Success? ==> Canonical(tracker, r.value)
  {
    match RequestFromApi(tracker.issueReplies, IssueUrl(issueId))
    case Failure(e) => Failure(e)
    case Success(issue) => if IsDuplicate(issue) then FollowDuplicate(tracker, issue, fuel) else Success(issue)
  }

  /**
   * `followDuplicate`: fetch the comments; without a redirecting comment the
   * issue itself is the answer, otherwise the referenced id is requested.
   */
  function FollowDuplicate(tracker: Tracker, issue: Issue, fuel: nat): (r: Result<Issue, FetchError>)
    decreases fuel, 0
    ensures r.Success? ==> Canonical(tracker, r.value)
  {
    match RequestFromApi(tracker.commentReplies, issue.commentsUrl)
    case Failure(e) => Failure(e)
    case Success(comments) =>
      match LastRedirect(comments)
      case None => Success(issue)
      case Some(refId) => if fuel == 0 then Failure(DuplicateChainTooDeep) else RequestIssue(tracker, refId, fuel - 1)
  }

  /** The three cases of resolution, as the source states them. */
  lemma ResolutionCases(tracker: Tracker, issueId: string, fuel: nat)
    ensures var fetched := RequestFromApi(tracker.issueReplies, IssueUrl(issueId));
      && (fetched.Failure? ==> RequestIssue(tracker, issueId, fuel) == Failure(fetched.error))
      && (fetched.Success? && !IsDuplicate(fetched.value) ==> RequestIssue(tracker, issueId, fuel) == fetched)
      && (fetched.Success? && IsDuplicate(fetched.value) ==>
            var comments := RequestFromApi(tracker.commentReplies, fetched.value.commentsUrl);
            && (comments.Success? && LastRedirect(comments.value).None? ==> RequestIssue(tracker, issueId, fuel) == fetched)
            && (comments.Success? && LastRedirect(comments.value).Some? && fuel > 0 ==>
                  RequestIssue(tracker, issueId, fuel) == RequestIssue(tracker, LastRedirect(comments.value).value, fuel - 1)))
  {
  }

  /**
   * The fuel bound only cuts chains off: a resolution that did not run out
   * gives the same answer with any larger bound.
   */
  lemma {:induction false} MoreFuelSameResult(tracker: Tracker, issueId: string, fuel: nat, more: nat)
    requires fuel <= more
    requires RequestIssue(tracker, issueId, fuel) != Failure(DuplicateChainTooDeep)
    ensures RequestIssue(tracker, issueId, more) == RequestIssue(tracker, issueId, fuel)
    decreases fuel
  {
    match RequestFromApi(tracker.issueReplies, IssueUrl(issueId))
    case Failure(_) =>
    case Success(issue) =>
      if IsDuplicate(issue) {
        match RequestFromApi(tracker.commentReplies, issue.commentsUrl)
        case Failure(_) =>
        case Success(comments) =>
          match LastRedirect(comments)
          case None =>
          case Some(refId) =>
            if fuel > 0 {
              MoreFuelSameResult(tracker, refId, fuel - 1, more - 1);
            }
      }
  }

  /**
   * The staleness test of one id against the cache as it was when the refresh
   * began: a forced refresh and an id without an entry are always fetched, and
   * a skipped id has an entry stamped at most UPDATE_FREQUENCY before `now`.
   */
  predicate IsStale(snapshot: map<string, IssueCache>, issueId: string, now: int, force: bool)
    ensures force || issueId !in snapshot ==> IsStale(snapshot, issueId, now, force)
    ensures !IsStale(snapshot, issueId, now, force) ==>
      issueId in snapshot && snapshot[issueId].cacheTime.Some? && snapshot[issueId].cacheTime.value >= now - UPDATE_FREQUENCY
  {
    || force
    || issueId !in snapshot
    || snapshot[issueId].cacheTime.None?
    || now - snapshot[issueId].cacheTime.value > UPDATE_FREQUENCY
  }

  /** `getSafe(issues, [issueId, 'notifiedForReply'], false)`: false for a missing entry or flag. */
  function HasBeenNotified(snapshot: map<string, IssueCache>, issueId: string): (r: bool)
    ensures issueId !in snapshot ==> !r
    ensures issueId in snapshot ==> (r <==> snapshot[issueId].notifiedForReply == Some(true))
  {
    issueId in snapshot && snapshot[issueId].notifiedForReply == Some(true)
  }

  /**
   * `cache`: the record the refresh writes, stamped `now`, with the
   * notification flag set and no answered-comment time.
   */
  function Cache(input: Issue, notifiedForReply: bool, now: int): (e: IssueCache)
    ensures e.number == input.number && e.cacheTime == Some(now)
    ensures e.notifiedForReply == Some(notifiedForReply) && e.lastCommentResponseMS.None?
  {
    BaseEntry(input, now).(notifiedForReply := Some(notifiedForReply))
  }

  /**
   * The two cache builders agree: the refresh's record is `cacheEntry`'s with
   * the notification flag in place of the answered-comment time, so a refresh
   * drops that time.
   */
  lemma CacheIsCacheEntryWithFlag(input: Issue, notifiedForReply: bool, lastCommentResponseMS: int, now: int)
    ensures CacheEntry(input, lastCommentResponseMS, now)
         == Cache(input, notifiedForReply, now).(notifiedForReply := None, lastCommentResponseMS := Some(lastCommentResponseMS))
  {
  }

  /** The cached label names flag feedback exactly when the issue's labels do. */
  lemma {:induction false} CachedLabelsFlagFeedback(input: Issue, notifiedForReply: bool, now: int)
    ensures ReplyRequired(input) <==>
            exists name :: name in Cache(input, notifiedForReply, now).labels && IsFeedbackRequiredLabel(name)
  {
    var e := Cache(input, notifiedForReply, now);
    if ReplyRequired(input) {
      var l :| l in input.labels && IsFeedbackRequiredLabel(l.name);
      var i :| 0 <= i < |input.labels| && input.labels[i] == l;
      assert e.labels[i] == l.name;
    }
    if exists name :: name in e.labels && IsFeedbackRequiredLabel(name) {
      var name :| name in e.labels && IsFeedbackRequiredLabel(name);
      var i :| 0 <= i < |e.labels| && e.labels[i] == name;
      assert input.labels[i] in input.labels;
    }
  }

  /** A freshly written entry is not fetched again until the update interval has passed. */
  lemma CachedEntryStaleness(snapshot: map<string, IssueCache>, issueId: string, input: Issue,
                             notified: bool, written: int, now: int)
    ensures IsStale(snapshot[issueId := Cache(input, notified, written)], issueId, now, false)
        <==> now - written > UPDATE_FREQUENCY
  {
  }

  /**
   * What one refresh works from: the cache as the refresh found it (the
   * component reads it from its props, which later writes do not change),
   * how an id is resolved to an issue (`UpdateIssues` passes
   * `Resolver(tracker, fuel)`), the `force` flag, the time the id list
   * arrived, and the clock that stamps the k-th id's cache write.
   */
  datatype SyncInput = SyncInput(
    snapshot: map<string, IssueCache>,
    resolve: string -> Result<Issue, FetchError>,
    force: bool,
    now: int,
    clock: nat -> int)

  /**
   * The state after part of the id list: the cache, the queued notification
   * URLs, the ids requested so far, and whether a request failed (which
   * rejects the rest of the series).
   */
  datatype SyncState = SyncState(store: map<string, IssueCache>, urls: seq<string>, requested: seq<string>, failed: bool)

  /** `requestIssue` against a tracker, as the refresh calls it. */
  function Resolver(tracker: Tracker, fuel: nat): string -> Result<Issue, FetchError> {
    issueId => RequestIssue(tracker, issueId, fuel)
  }

  function Resolve(input: SyncInput, issueId: string): Result<Issue, FetchError> {
    input.resolve(issueId)
  }

  /**
   * The body of the serial loop for the id at position `k`: it requests the id
   * at most once, and fails exactly when the id is stale and its resolution fails.
   */
  function SyncStep(input: SyncInput, acc: SyncState, issueId: string, k: nat): (r: SyncState)
    ensures r.requested == acc.requested || r.requested == acc.requested + [issueId]
    ensures r.failed <==> acc.failed || (IsStale(input.snapshot, issueId, input.now, input.force) && Resolve(input, issueId).Failure?)
  {
    if !IsStale(input.snapshot, issueId, input.now, input.force) then acc
    else match Resolve(input, issueId)
      case Failure(_) => acc.(requested := acc.requested + [issueId], failed := true)
      case Success(issue) =>
        var hasBeenNotified := HasBeenNotified(input.snapshot, issueId);
        var notificationNeeded := ReplyRequired(issue) && !hasBeenNotified;
        var notifiedForReply := if hasBeenNotified then hasBeenNotified else notificationNeeded;
        SyncState(
          acc.store[issueId := Cache(issue, notifiedForReply, input.clock(k))],
          if notificationNeeded then acc.urls + [IssuePageUrl(issue.number)] else acc.urls,
          acc.requested + [issueId],
          acc.failed)
  }

  /**
   * The state after the first `n` ids; after a failure nothing more happens.
   * At most one request per id.
   */
  function Sync(input: SyncInput, ids: seq<string>, n: nat): (r: SyncState)
    requires n <= |ids|
    ensures |r.requested| <= n
  {
    if n == 0 then SyncState(input.snapshot, [], [], false)
    else
      var acc := Sync(input, ids, n - 1);
      if acc.failed then acc else SyncStep(input, acc, ids[n - 1], n - 1)
  }

  /** One more id of an unfailed run is one more step. */
  lemma SyncNext(input: SyncInput, ids: seq<string>, n: nat)
    requires n < |ids| && !Sync(input, ids, n).failed
    ensures Sync(input, ids, n + 1) == SyncStep(input, Sync(input, ids, n), ids[n], n)
  {
  }

  /** The stale ids of a list, in list order. */
  function StaleIds(input: SyncInput, ids: seq<string>): seq<string> {
    if ids == [] then []
    else
      var last := ids[|ids| - 1];
      StaleIds(input, ids[..|ids| - 1]) + (if IsStale(input.snapshot, last, input.now, input.force) then [last] else [])
  }

  /** Fetching the id succeeds, its issue asks for feedback, and the user was not told yet. */
  predicate NeedsNotification(input: SyncInput, issueId: string) {
    && Resolve(input, issueId).Success?
    && ReplyRequired(Resolve(input, issueId).value)
    && !HasBeenNotified(input.snapshot, issueId)
  }

  /** The page URLs of the resolved issues of those requested ids that need a notification, in order. */
  function QueuedUrls(input: SyncInput, requested: seq<string>): seq<string> {
    if requested == [] then []
    else
      var last := requested[|requested| - 1];
      QueuedUrls(input, requested[..|requested| - 1]) +
        (if NeedsNotification(input, last) then [IssuePageUrl(Resolve(input, last).value.number)] else [])
  }

  /**
   * `e` is what a refresh of `issueId` writes: the resolved issue, stamped
   * with some time, with the flag set when it was set before or the issue
   * asks for feedback.
   */
  ghost predicate Refreshed(input: SyncInput, issueId: string, e: IssueCache) {
    && Resolve(input, issueId).Success?
    && e.cacheTime.Some?
    && var issue := Resolve(input, issueId).value;
       e == Cache(issue, HasBeenNotified(input.snapshot, issueId) || ReplyRequired(issue), e.cacheTime.value)
  }

  /**
   * An id that is not stale is neither requested nor written, and every entry
   * is either the one the refresh started from or a refresh of its own key.
   */
  ghost predicate TouchesOnlyStale(input: SyncInput, r: SyncState) {
    && (forall j :: 0 <= j < |r.requested| ==> IsStale(input.snapshot, r.requested[j], input.now, input.force))
    && (forall key :: !IsStale(input.snapshot, key, input.now, input.force) ==>
          key in r.store && r.store[key] == input.snapshot[key])
    && (forall key :: key in r.store ==>
          (key in input.snapshot && r.store[key] == input.snapshot[key]) || Refreshed(input, key, r.store[key]))
  }

  /**
   * The cache is written only under requested ids: a key that was not
   * requested, such as a duplicate's resolved number, is neither added nor
   * changed.
   */
  lemma {:induction false} SyncWritesOnlyRequested(input: SyncInput, ids: seq<string>, n: nat, key: string)
    requires n <= |ids| && key !in Sync(input, ids, n).requested
    ensures key in Sync(input, ids, n).store <==> key in input.snapshot
    ensures key in input.snapshot ==> Sync(input, ids, n).store[key] == input.snapshot[key]
  {
    if n > 0 {
      var acc := Sync(input, ids, n - 1);
      assert key !in acc.requested by {
        assert Sync(input, ids, n).requested == acc.requested || Sync(input, ids, n).requested == acc.requested + [ids[n - 1]];
      }
      SyncWritesOnlyRequested(input, ids, n - 1, key);
      if !acc.failed && IsStale(input.snapshot, ids[n - 1], input.now, input.force) && Resolve(input, ids[n - 1]).Success? {
        StepWritesRefreshed(input, acc, ids[n - 1], n - 1);
        assert key != ids[n - 1];
      }
    }
  }

  /** A successful step writes the refresh of its own id. */
  lemma StepWritesRefreshed(input: SyncInput, acc: SyncState, issueId: string, k: nat)
    requires IsStale(input.snapshot, issueId, input.now, input.force)
    requires Resolve(input, issueId).Success?
    ensures var r := SyncStep(input, acc, issueId, k);
      && r.store == acc.store[issueId := r.store[issueId]]
      && Refreshed(input, issueId, r.store[issueId])
      && r.requested == acc.requested + [issueId]
      && r.failed == acc.failed
  {
    var issue := Resolve(input, issueId).value;
    var h := HasBeenNotified(input.snapshot, issueId);
    var notified := if h then h else ReplyRequired(issue) && !h;
    assert notified == (h || ReplyRequired(issue));
  }

  lemma StepTouchesOnlyStale(input: SyncInput, acc: SyncState, issueId: string, k: nat)
    requires TouchesOnlyStale(input, acc)
    ensures TouchesOnlyStale(input, SyncStep(input, acc, issueId, k))
  {
    if IsStale(input.snapshot, issueId, input.now, input.force) && Resolve(input, issueId).Success? {
      StepWritesRefreshed(input, acc, issueId, k);
    }
  }

  lemma {:induction false} SyncTouchesOnlyStale(input: SyncInput, ids: seq<string>, n: nat)
    requires n <= |ids|
    ensures TouchesOnlyStale(input, Sync(input, ids, n))
  {
    if n > 0 {
      SyncTouchesOnlyStale(input, ids, n - 1);
      SyncLastTouchesOnlyStale(input, ids, n);
    }
  }

  lemma SyncLastTouchesOnlyStale(input: SyncInput, ids: seq<string>, n: nat)
    requires 0 < n <= |ids| && TouchesOnlyStale(input, Sync(input, ids, n - 1))
    ensures TouchesOnlyStale(input, Sync(input, ids, n))
  {
    var acc := Sync(input, ids, n - 1);
    if !acc.failed {
      StepTouchesOnlyStale(input, acc, ids[n - 1], n - 1);
    }
  }

  /** A refresh never clears the sticky notification flag. */
  lemma NotifiedIsSticky(input: SyncInput, ids: seq<string>, n: nat, key: string)
    requires n <= |ids|
    requires HasBeenNotified(input.snapshot, key)
    ensures HasBeenNotified(Sync(input, ids, n).store, key)
  {
    SyncTouchesOnlyStale(input, ids, n);
  }

  /** Once a request fails, the state stays as it is to the end of the list. */
  lemma {:induction false} SyncFailureFreezes(input: SyncInput, ids: seq<string>, m: nat, n: nat)
    requires m <= n <= |ids|
    requires Sync(input, ids, m).failed
    ensures Sync(input, ids, n) == Sync(input, ids, m)
    decreases n
  {
    if n > m {
      SyncFailureFreezes(input, ids, m, n - 1);
    }
  }

  /**
   * Without a failure, the requests are exactly the stale ids of the prefix
   * in list order and each of them holds its refreshed entry.
   */
  ghost predicate CompletedPrefix(input: SyncInput, ids: seq<string>, r: SyncState) {
    && r.requested == StaleIds(input, ids)
    && (forall j :: 0 <= j < |ids| && IsStale(input.snapshot, ids[j], input.now, input.force) ==>
          ids[j] in r.store && Refreshed(input, ids[j], r.store[ids[j]]))
  }

  /** One unfailed step that does not fail extends a completed prefix by its id. */
  lemma StepCompletes(input: SyncInput, prefix: seq<string>, acc: SyncState, issueId: string, k: nat)
    requires !acc.failed && CompletedPrefix(input, prefix, acc)
    requires !SyncStep(input, acc, issueId, k).failed
    ensures CompletedPrefix(input, prefix + [issueId], SyncStep(input, acc, issueId, k))
  {
    var r := SyncStep(input, acc, issueId, k);
    var ids := prefix + [issueId];
    assert ids[..|ids| - 1] == prefix;
    if IsStale(input.snapshot, issueId, input.now, input.force) {
      StepWritesRefreshed(input, acc, issueId, k);
    }
    forall j | 0 <= j < |ids| && IsStale(input.snapshot, ids[j], input.now, input.force)
      ensures ids[j] in r.store && Refreshed(input, ids[j], r.store[ids[j]])
    {
      if j < |prefix| {
        assert ids[j] == prefix[j];
      }
    }
  }

  /** Without a failure, the requests so far are the stale ids in list order, each refreshed. */
  lemma {:induction false} SyncRequestsStaleInOrder(input: SyncInput, ids: seq<string>, n: nat)
    requires n <= |ids|
    requires !Sync(input, ids, n).failed
    ensures CompletedPrefix(input, ids[..n], Sync(input, ids, n))
  {
    if n > 0 {
      var acc := Sync(input, ids, n - 1);
      SyncNext(input, ids, n - 1);
      SyncRequestsStaleInOrder(input, ids, n - 1);
      assert ids[..n] == ids[..n - 1] + [ids[n - 1]];
      StepCompletes(input, ids[..n - 1], acc, ids[n - 1], n - 1);
    }
  }

  /** A failed refresh stopped at its last request, whose resolution failed. */
  lemma {:induction false} SyncFailsOnLastRequest(input: SyncInput, ids: seq<string>, n: nat)
    requires n <= |ids|
    requires Sync(input, ids, n).failed
    ensures var r := Sync(input, ids, n);
      |r.requested| > 0 && Resolve(input, r.requested[|r.requested| - 1]).Failure?
  {
    if n > 0 && Sync(input, ids, n - 1).failed {
      SyncFailsOnLastRequest(input, ids, n - 1);
    }
  }

  /**
   * A failure rejects only what comes after it: every stale id handled before
   * an unfailed point keeps its refreshed entry in the final store.
   */
  lemma {:induction false} SyncKeepsEarlierWrites(input: SyncInput, ids: seq<string>, m: nat, n: nat)
    requires m <= n <= |ids| && !Sync(input, ids, m).failed
    ensures forall j :: 0 <= j < m && IsStale(input.snapshot, ids[j], input.now, input.force) ==>
      ids[j] in Sync(input, ids, n).store && Refreshed(input, ids[j], Sync(input, ids, n).store[ids[j]])
  {
    if n == m {
      SyncRequestsStaleInOrder(input, ids, m);
      assert forall j :: 0 <= j < m ==> ids[..m][j] == ids[j];
    } else {
      SyncKeepsEarlierWrites(input, ids, m, n - 1);
      var acc := Sync(input, ids, n - 1);
      if !acc.failed && IsStale(input.snapshot, ids[n - 1], input.now, input.force) && Resolve(input, ids[n - 1]).Success? {
        StepWritesRefreshed(input, acc, ids[n - 1], n - 1);
        forall j | 0 <= j < m && IsStale(input.snapshot, ids[j], input.now, input.force)
          ensures ids[j] in Sync(input, ids, n).store && Refreshed(input, ids[j], Sync(input, ids, n).store[ids[j]])
        {
          if ids[j] == ids[n - 1] {
            StepWritesRefreshed(input, acc, ids[j], n - 1);
          }
        }
      }
    }
  }

  /** One step queues a URL exactly when its id needs a notification. */
  lemma StepQueues(input: SyncInput, acc: SyncState, issueId: string, k: nat)
    requires acc.urls == QueuedUrls(input, acc.requested)
    ensures var r := SyncStep(input, acc, issueId, k);
      r.urls == QueuedUrls(input, r.requested)
  {
    var r := SyncStep(input, acc, issueId, k);
    if IsStale(input.snapshot, issueId, input.now, input.force) {
      assert r.requested == acc.requested + [issueId];
      assert r.requested[..|r.requested| - 1] == acc.requested;
      assert QueuedUrls(input, r.requested) == QueuedUrls(input, acc.requested) +
        (if NeedsNotification(input, issueId) then [IssuePageUrl(Resolve(input, issueId).value.number)] else []);
    }
  }

  /** The queued URLs are those of the requested ids that need a notification, in request order. */
  lemma {:induction false} SyncQueuesExactly(input: SyncInput, ids: seq<string>, n: nat)
    requires n <= |ids|
    ensures Sync(input, ids, n).urls == QueuedUrls(input, Sync(input, ids, n).requested)
  {
    if n > 0 {
      SyncQueuesExactly(input, ids, n - 1);
      var acc := Sync(input, ids, n - 1);
      if !acc.failed {
        StepQueues(input, acc, ids[n - 1], n - 1);
      }
    }
  }

  /**
   * The text of the one batched notification: the URLs joined by
   * `[/url]<br />[url]` behind an opening `[url]`; the last URL's tag is left
   * open, so a single URL is just `[url]` and the URL.
   */
  function NotificationText(urls: seq<string>): (r: string)
    ensures |r| >= 5 && r[..5] == "[url]"
    ensures |urls| == 1 ==> r == "[url]" + urls[0]
  {
    "[url]" + Join(urls, "[/url]<br />[url]")
  }

  /** The batched notification names every queued URL; `i` is where. */
  lemma NotificationNamesEveryUrl(urls: seq<string>, k: nat) returns (i: int)
    requires k < |urls|
    ensures PartAt(urls[k], NotificationText(urls), i)
  {
    var j := JoinContainsParts(urls, "[/url]<br />[url]", k);
    i := j + 5;
    assert NotificationText(urls)[i..i + |urls[k]|] == Join(urls, "[/url]<br />[url]")[j..j + |urls[k]|];
  }

  /** The issue numbers the host reports, as the text ids the cache is keyed by. */
  function IdStrings(numbers: seq<nat>): (ids: seq<string>)
    ensures |ids| == |numbers|
    ensures forall i :: 0 <= i < |numbers| ==> ids[i] == DecimalString(numbers[i])
  {
    seq(|numbers|, i requires 0 <= i < |numbers| => DecimalString(numbers[i]))
  }

  /**
   * The issue list component's refresh state. `issues` is the persisted cache
   * (written one entry at a time), `issueList` the last id list handed to the
   * host, `requests` every id the refresh called `requestIssue` for (the
   * recursive calls made while following a duplicate are not recorded), and
   * `notifications` the text of every batched notification raised.
   */
  class IssueList {
    var lastRefresh: int
    var issues: map<string, IssueCache>
    var issueList: seq<string>
    var requests: seq<string>
    var notifications: seq<string>

    constructor (issues: map<string, IssueCache>)
      ensures lastRefresh == 0 && this.issues == issues
      ensures issueList == [] && requests == [] && notifications == []
    {
      lastRefresh := 0;
      this.issues := issues;
      issueList := [];
      requests := [];
      notifications := [];
    }

    /**
     * The per-id step of the refresh: request a stale id, write its cache
     * entry and queue its page URL when it needs a notification. `urls`
     * is the queue so far; `base` is where this refresh's requests start.
     */
    method RefreshOne(input: SyncInput, issueId: string, k: nat, urls: seq<string>, ghost base: nat)
        returns (urls': seq<string>, failed: bool)
      requires base <= |requests|
      modifies this
      ensures |old(requests)| <= |requests| && requests[..|old(requests)|] == old(requests)
      ensures SyncState(issues, urls', requests[base..], failed)
        == SyncStep(input, SyncState(old(issues), urls, old(requests)[base..], false), issueId, k)
      ensures lastRefresh == old(lastRefresh) && issueList == old(issueList) && notifications == old(notifications)
    {
      urls' := urls;
      failed := false;
      if IsStale(input.snapshot, issueId, input.now, input.force) {
        requests := requests + [issueId];
        assert requests[base..] == old(requests)[base..] + [issueId];
        match input.resolve(issueId) {
          case Failure(_) =>
            failed := true;
          case Success(issue) =>
            var hasBeenNotified := HasBeenNotified(input.snapshot, issueId);
            var notificationNeeded := ReplyRequired(issue) && !hasBeenNotified;
            if notificationNeeded {
              urls' := urls' + [IssuePageUrl(issue.number)];
            }
            var notifiedForReply := if hasBeenNotified then hasBeenNotified else notificationNeeded;
            issues := issues[issueId := Cache(issue, notifiedForReply, input.clock(k))];
        }
      }
    }

    /**
     * `updateIssues`. `now` is the time of the call, `query` the host's reply
     * to the request for the user's issue numbers, `listTime` the time that
     * reply arrived and `clock(k)` the time of the k-th id's cache write.
     */
    method UpdateIssues(force: bool, now: int, query: Result<seq<nat>, string>, tracker: Tracker,
                        fuel: nat, listTime: int, clock: nat -> int)
      modifies this
      ensures now - old(lastRefresh) < MIN_REFRESH_DELAY ==> unchanged(this)
      ensures now - old(lastRefresh) >= MIN_REFRESH_DELAY ==> lastRefresh == now
      ensures now - old(lastRefresh) >= MIN_REFRESH_DELAY && query.Failure? ==>
        && issues == old(issues) && issueList == old(issueList)
        && requests == old(requests) && notifications == old(notifications)
      ensures now - old(lastRefresh) >= MIN_REFRESH_DELAY && query.Success? ==>
        var ids := IdStrings(query.value);
        var r := Sync(SyncInput(old(issues), Resolver(tracker, fuel), force, listTime, clock), ids, |ids|);
        && issueList == ids
        && issues == r.store
        && requests == old(requests) + r.requested
        && notifications == old(notifications) + (if !r.failed && |r.urls| > 0 then [NotificationText(r.urls)] else [])
    {
      if now - lastRefresh < MIN_REFRESH_DELAY {
        return;
      }
      lastRefresh := now;
      if query.Failure? {
        // the failure is only logged
        return;
      }
      var ids := IdStrings(query.value);
      issueList := ids;
      RefreshAll(SyncInput(issues, Resolver(tracker, fuel), force, listTime, clock), ids);
    }

    /**
     * The serial loop over the id list and the batched notification that
     * follows it, for a refresh that works from `input`.
     */
    method RefreshAll(input: SyncInput, ids: seq<string>)
      requires input.snapshot == issues
      modifies this
      ensures var r := Sync(input, ids, |ids|);
        && issues == r.store
        && requests == old(requests) + r.requested
        && notifications == old(notifications) + (if !r.failed && |r.urls| > 0 then [NotificationText(r.urls)] else [])
      ensures lastRefresh == old(lastRefresh) && issueList == old(issueList)
    {
      var urls: seq<string> := [];
      var failed := false;
      var i := 0;
      while i < |ids| && !failed
        invariant 0 <= i <= |ids|
        invariant |old(requests)| <= |requests| && requests[..|old(requests)|] == old(requests)
        invariant Sync(input, ids, i) == SyncState(issues, urls, requests[|old(requests)|..], failed)
        invariant lastRefresh == old(lastRefresh) && issueList == old(issueList) && notifications == old(notifications)
      {
        SyncNext(input, ids, i);
        urls, failed := RefreshOne(input, ids[i], i, urls, |old(requests)|);
        i := i + 1;
      }
      assert requests == old(requests) + requests[|old(requests)|..];
      if failed {
        SyncFailureFreezes(input, ids, i, |ids|);
      } else {
        assert i == |ids|;
        if |urls| > 0 {
          notifications := notifications + [NotificationText(urls)];
        }
      }
    }
  }

  // ---------------------------------------------------------------------------
  // What the list shows
  // ---------------------------------------------------------------------------

  /**
   * An entry is shown unless it was closed, and both closed and last updated,
   * at least HIDE_AFTER ago; a closed entry without a closing time is judged
   * by its update time alone.
   */
  predicate IsVisible(e: IssueCache, now: int)
    ensures e.state != Closed ==> IsVisible(e, now)
    ensures now - e.lastUpdated < HIDE_AFTER ==> IsVisible(e, now)
    ensures e.state == Closed && e.closedTime.None? ==> (IsVisible(e, now) <==> now - e.lastUpdated < HIDE_AFTER)
  {
    || e.state != Closed
    || (e.closedTime.Some? && now - e.closedTime.value < HIDE_AFTER)
    || now - e.lastUpdated < HIDE_AFTER
  }

  /** The keys, in key order, whose entries are visible. */
  function VisibleKeys(issues: map<string, IssueCache>, keys: seq<string>, now: int): (r: seq<string>)
    ensures forall k :: k in r <==> k in keys && k in issues && IsVisible(issues[k], now)
    ensures forall i :: 0 <= i < |r| ==> r[i] in issues
    ensures |r| <= |keys|
  {
    if keys == [] then []
    else
      var rest := VisibleKeys(issues, keys[1..], now);
      if keys[0] in issues && IsVisible(issues[keys[0]], now) then [keys[0]] + rest else rest
  }

  /** Each visible key is kept as often as it occurs in `keys`; every other key is dropped. */
  lemma {:induction false} VisibleKeysCounts(issues: map<string, IssueCache>, keys: seq<string>, now: int, k: string)
    ensures multiset(VisibleKeys(issues, keys, now))[k]
      == if k in issues && IsVisible(issues[k], now) then multiset(keys)[k] else 0
  {
    if keys != [] {
      VisibleKeysCounts(issues, keys[1..], now, k);
      assert keys == [keys[0]] + keys[1..];
    }
  }

  predicate AllCached(issues: map<string, IssueCache>, s: seq<string>) {
    forall i :: 0 <= i < |s| ==> s[i] in issues
  }

  /** Most recently updated first. */
  predicate RecencyOrdered(issues: map<string, IssueCache>, s: seq<string>)
    requires AllCached(issues, s)
  {
    forall i, j :: 0 <= i < j < |s| ==> issues[s[i]].lastUpdated >= issues[s[j]].lastUpdated
  }

  /** Inserts `x` after every key updated at least as recently, so equal keys keep their order. */
  function InsertByRecency(issues: map<string, IssueCache>, x: string, s: seq<string>): (r: seq<string>)
    requires x in issues && AllCached(issues, s) && RecencyOrdered(issues, s)
    ensures forall i :: 0 <= i < |r| ==> r[i] == x || r[i] in s
    ensures AllCached(issues, r) && RecencyOrdered(issues, r)
  {
    if s == [] then [x]
    else if issues[s[0]].lastUpdated < issues[x].lastUpdated then [x] + s
    else
      var rest := InsertByRecency(issues, x, s[1..]);
      assert s == [s[0]] + s[1..];
      assert forall i :: 0 <= i < |rest| ==> issues[rest[i]].lastUpdated <= issues[s[0]].lastUpdated;
      [s[0]] + rest
  }

  /** Inserting adds exactly `x`. */
  lemma {:induction false} InsertByRecencyPermutes(issues: map<string, IssueCache>, x: string, s: seq<string>)
    requires x in issues && AllCached(issues, s) && RecencyOrdered(issues, s)
    ensures multiset(InsertByRecency(issues, x, s)) == multiset(s) + multiset{x}
  {
    if s != [] && issues[s[0]].lastUpdated >= issues[x].lastUpdated {
      InsertByRecencyPermutes(issues, x, s[1..]);
      assert s == [s[0]] + s[1..];
    }
  }

  /** The stable sort by descending `lastUpdated`. */
  function SortByRecency(issues: map<string, IssueCache>, s: seq<string>): (r: seq<string>)
    requires AllCached(issues, s)
    ensures forall i :: 0 <= i < |r| ==> r[i] in s
    ensures AllCached(issues, r) && RecencyOrdered(issues, r)
  {
    if s == [] then []
    else
      var init := SortByRecency(issues, s[..|s| - 1]);
      InsertByRecency(issues, s[|s| - 1], init)
  }

  /** Sorting neither drops nor duplicates a key. */
  lemma {:induction false} SortByRecencyPermutes(issues: map<string, IssueCache>, s: seq<string>)
    requires AllCached(issues, s)
    ensures multiset(SortByRecency(issues, s)) == multiset(s)
  {
    if s != [] {
      SortByRecencyPermutes(issues, s[..|s| - 1]);
      InsertByRecencyPermutes(issues, s[|s| - 1], SortByRecency(issues, s[..|s| - 1]));
      assert s == s[..|s| - 1] + [s[|s| - 1]];
    }
  }

  /**
   * The ids the list renders, in render order: exactly the visible cached keys,
   * each as often as in `keys`, most recently updated first.
   */
  function VisibleIssues(issues: map<string, IssueCache>, keys: seq<string>, now: int): (r: seq<string>)
    ensures forall k :: k in r <==> k in keys && k in issues && IsVisible(issues[k], now)
    ensures multiset(r) == multiset(VisibleKeys(issues, keys, now))
    ensures AllCached(issues, r) && RecencyOrdered(issues, r)
  {
    var visible := VisibleKeys(issues, keys, now);
    var r := SortByRecency(issues, visible);
    SortByRecencyPermutes(issues, visible);
    assert forall k :: k in r <==> k in multiset(visible);
    r
  }
}
