/**
 * The records exchanged with the issue tracker and kept in the local cache
 * (src/IGithubIssue.ts). Only the fields the engine reads are kept; timestamps
 * are the integers `Date.parse` yields, and a timestamp that parses to `NaN`
 * (a `null` `closed_at`) is `None`.
 */
module GithubIssue {
  import opened Wrappers

  datatype IssueState = Open | Closed

  datatype User = User(login: string)

  datatype Label = Label(name: string)

  /** A milestone as the tracker reports it. */
  datatype Milestone = Milestone(
    number: int,
    state: string,
    title: string,
    description: string,
    closedIssues: int,
    openIssues: int,
    dueOn: Option<string>)

  /** An issue as the tracker reports it. */
  datatype Issue = Issue(
    number: nat,
    title: string,
    body: string,
    user: Option<User>,
    labels: seq<Label>,
    state: IssueState,
    milestone: Option<Milestone>,
    comments: int,
    createdAt: int,
    updatedAt: int,
    closedAt: Option<int>,
    commentsUrl: string,
    htmlUrl: string)

  /** A comment on an issue; `createdAt` is its creation time in milliseconds. */
  datatype Comment = Comment(user: User, body: string, createdAt: int)

  /** The part of a milestone the cache keeps. */
  datatype MilestoneCache = MilestoneCache(
    number: int,
    state: string,
    title: string,
    closedIssues: int,
    openIssues: int,
    dueOn: Option<string>)

  /**
   * One cache entry. `cacheTime`, `notifiedForReply` and `lastCommentResponseMS`
   * are not declared by the record type of the source but are written and read
   * by the code, so they are optional here: an entry may lack any of them.
   */
  datatype IssueCache = IssueCache(
    number: nat,
    title: string,
    state: IssueState,
    user: Option<string>,
    body: string,
    createdTime: int,
    closedTime: Option<int>,
    comments: int,
    labels: seq<string>,
    lastUpdated: int,
    milestone: Option<MilestoneCache>,
    cacheTime: Option<int>,
    notifiedForReply: Option<bool>,
    lastCommentResponseMS: Option<int>)
}
