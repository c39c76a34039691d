# Issue tracker extension: sync engine and feedback responder, in Dafny

This project models the two pieces of logic in the Vortex issue-tracker extension.

1. **The issue list's synchronisation engine** (`src/Issues.tsx`, with helpers from `src/util.ts`):
   - the one-minute refresh cooldown;
   - the per-id staleness test against a 24-hour update interval;
   - resolution of issues labelled `duplicate` through their last "duplicate of #N" comment;
   - the sticky `notifiedForReply` flag;
   - the cache record written for each refreshed id;
   - the one batched notification text;
   - the filter and sort that decide which cached issues the list shows.
2. **The feedback responder dialog** (`src/FeedbackResponderDialog.tsx`):
   - the 10-character message rule and the submit button's enabling rule;
   - the attachment registry, keyed by file name, with a 20 MiB combined budget;
   - removal through `indexOf` + `splice`;
   - base names and default types of attached files;
   - issue selection;
   - the shape of the delivery request;
   - the reconciliation after delivery: cache stamping, temporary-file deletion, pruning of the outstanding list, and clearing.

The GitHub tracker is an oracle: a map from request URL to the reply it gives. A reply is either "no connection" or a response with a status, a content type and a body that parsed, or did not parse, as JSON. A URL the map lacks also gets no connection. Timestamps are integers in milliseconds. Every `Date.now()` the code reads is a parameter, except that the two reads at the start of `updateIssues` (the cooldown test and the new `lastRefresh`, src/Issues.tsx:354 and :360) share one `now`.

Modules, one per file:

| file | module | contents |
|---|---|---|
| `wrappers.dfy` | `Wrappers` | `Option`, `Result` |
| `github_issue.dfy` | `GithubIssue` | issue, comment, label, milestone and cache records (`src/IGithubIssue.ts`) |
| `text.dfy` | `Text` | decimal rendering and parsing, ASCII lower-casing, `join` |
| `util.dfy` | `Util` | `src/util.ts`: allow-lists, `cacheEntry`, `getLastDevComment`, response classification |
| `redirects.dfy` | `Redirects` | the `DUPLICATE_EXP` match and the choice of the redirecting comment |
| `issues.dfy` | `Issues` | resolution, staleness, `cache`, the refresh specification `Sync`, class `IssueList`, visible issues |
| `feedback.dfy` | `FeedbackResponder` | message rule, registry, paths, reconciliation functions, class `FeedbackResponderDialog` |

The refresh is specified by the function `Issues.Sync`, which folds `SyncStep` over a prefix of the id list. `IssueList.RefreshAll` is the imperative loop, proved equal to `Sync`; `IssueList.UpdateIssues` applies the cooldown and the id query and then runs it. The lemmas about `Sync` carry what the refresh promises.

The dialog is a class. Its invariant `Valid()` states four things:
- registry keys are distinct and match the map;
- each file is registered under its own name;
- the combined size is within budget;
- `sending` holds exactly while a delivery is pending.

Submission has two halves. `BeginSubmit` builds the request and captures what the delivery callback closes over. `CompleteSubmit` is the callback.

## Model

| member | source | states |
|---|---|---|
| Util.IsFeedbackRequiredLabel | src/util.ts:8-10 | true exactly for "help wanted" and "waiting for reply", compared exactly and case-sensitively |
| Util.IsVortexDev | src/util.ts:12-14 | true exactly for comments by the logins "TanninOne" and "IDCs" |
| Util.LabelNames | src/util.ts:23 | one name per label, in label order, duplicates kept |
| Util.CacheEntry | src/util.ts:16-39 | copies number, comments, state, title and body; labels are names in order; user is the author's login or absent; null milestone becomes absent, else its six fields are copied; times copied; `lastCommentResponseMS` is the argument; `cacheTime` is now |
| Util.LastDevComment | src/util.ts:41-51 | absent iff no comment is maintainer-authored; otherwise a maintainer comment of the list with no maintainer comment after it |
| Util.GetLastDevComment | src/util.ts:41-51 | fails iff fetching the comments fails; otherwise yields the last maintainer comment of the fetched list (`LastDevComment`), or none when the list has none |
| Util.Classify | src/util.ts:62-83 | success iff status 200, a content type starting "application/json" and a parsed body; status is checked first, then content type |
| Util.RequestFromApi | src/Issues.tsx:257-293 | no connection is a network error; an answered request is exactly `Classify` of its response, so it succeeds iff the answer is a 200 JSON reply with a parsed body, and then yields that body |
| Text.ParseDecimalString | src/Issues.tsx:363 | the id text of an issue number parses back to that number |
| Text.JoinContainsParts | src/Issues.tsx:395 | every part occurs in the joined text |
| Redirects.FirstMarkerIsFirst | src/Issues.tsx:52 | the search finds the first position where "duplicate of #" in any ASCII letter case is followed by a digit, with none before it, and finds none only when there is none |
| Redirects.DigitRunIsMaximal | src/Issues.tsx:52 | the digit run taken at a position is all digits, a slice of the body, and followed by the end or a non-digit |
| Redirects.RedirectTargetMeaning | src/Issues.tsx:316 | absent iff the body never matches; otherwise a non-empty digit string, the run after the first match |
| Redirects.RedirectTarget | src/Issues.tsx:308-316 | a captured target is non-empty and starts with a digit |
| Redirects.LastRedirectIndexIsLast | src/Issues.tsx:308-309 | the last comment in list order whose body matches; none after it; none when no comment matches |
| Redirects.LastRedirect | src/Issues.tsx:308-316 | no comments give no redirect; a redirect target is non-empty and starts with a digit |
| Redirects.LastRedirectChoice | src/Issues.tsx:308-316 | the redirect comes from the last matching comment, and there is none without a matching comment |
| Redirects.RedirectExample | src/Issues.tsx:52 | "- DUPLICATE of #42." redirects to "42": unanchored, case-insensitive, whole digit run |
| Redirects.NoRedirectExample | src/Issues.tsx:52 | a space between "#" and the number is no redirect |
| Issues.RequestIssue | src/Issues.tsx:295-303 | a resolved issue is never a duplicate that still redirects: either not labelled `duplicate`, or its comments were fetched and none redirects |
| Issues.FollowDuplicate | src/Issues.tsx:305-320 | same guarantee for following one redirect |
| Issues.ResolutionCases | src/Issues.tsx:295-320 | a fetch failure is returned; an issue without the `duplicate` label (`IsDuplicate`, src/Issues.tsx:300) is returned unchanged; a duplicate without a redirect returns the original; otherwise the referenced id is requested by the same rule |
| Issues.MoreFuelSameResult | src/Issues.tsx:305-320 | the added redirect bound only cuts chains: any result other than running out stays the same with a larger bound |
| Issues.Cache | src/Issues.tsx:322-345 | number copied, `cacheTime` is now, the flag is the argument, and there is no answered-comment time |
| Issues.CacheIsCacheEntryWithFlag | src/Issues.tsx:322-345 | `cache` is `cacheEntry` with the flag instead of the answered-comment time, so a refresh drops that time |
| Issues.CachedLabelsFlagFeedback | src/Issues.tsx:375-376 | the cached label names flag feedback iff the issue's labels do (`ReplyRequired`, the `find` over the labels) |
| Issues.IsStale | src/Issues.tsx:367-370 | a forced refresh and an id without an entry are always fetched; a skipped id has an entry stamped at most 24 h before the list time |
| Issues.HasBeenNotified | src/Issues.tsx:374 | false for an id without an entry; otherwise true exactly when the stored flag is true |
| Issues.CachedEntryStaleness | src/Issues.tsx:367-370 | a freshly written entry is fetched again (without force) iff more than 24 h have passed, strictly |
| Issues.SyncStep | src/Issues.tsx:366-392 | one id is requested at most once; the step fails exactly when the id is stale and its resolution fails |
| Issues.Sync | src/Issues.tsx:366-392 | after `n` ids at most `n` requests were made |
| Issues.SyncWritesOnlyRequested | src/Issues.tsx:366-392 | a key that was never requested, such as a duplicate's resolved number, is neither added to the cache nor changed |
| Issues.SyncTouchesOnlyStale | src/Issues.tsx:366-392 | only stale ids are requested; a non-stale id's entry is untouched; every entry is either the old one or the refresh of its own requested id, whose flag is old flag OR reply-required |
| Issues.NotifiedIsSticky | src/Issues.tsx:374-386 | a refresh never clears `notifiedForReply` |
| Issues.SyncFailureFreezes | src/Issues.tsx:366-409 | after a failed request nothing more is requested, written or queued |
| Issues.SyncRequestsStaleInOrder | src/Issues.tsx:366-371 | without a failure the requests are exactly the stale ids in list order, each holding its refreshed entry under the requested id |
| Issues.SyncKeepsEarlierWrites | src/Issues.tsx:366-409 | a failure rejects only what follows it: every stale id handled before an unfailed point still holds its refreshed entry in the final cache |
| Issues.SyncFailsOnLastRequest | src/Issues.tsx:366-409 | a failed refresh made at least one request, and the last one is the one whose resolution failed |
| Issues.SyncQueuesExactly | src/Issues.tsx:378-382 | the queued URLs are exactly those of the requested ids that resolved, ask for feedback and were not notified, in order, with the resolved number |
| Issues.NotificationText | src/Issues.tsx:395 | starts with `[url]`; a single URL gives `[url]` and the URL, with the last tag left open |
| Issues.NotificationNamesEveryUrl | src/Issues.tsx:394-395 | the batched notification text contains every queued URL |
| Issues.IdStrings | src/Issues.tsx:363 | one id text per reported number, in order, as its decimal rendering |
| Issues.IssueList.constructor | src/Issues.tsx:58 | starts with last refresh 0 and the given cache |
| Issues.IssueList.RefreshOne | src/Issues.tsx:366-391 | one step of the serial loop equals `SyncStep` |
| Issues.IssueList.RefreshAll | src/Issues.tsx:366-395 | the serial loop over the ids leaves the cache, requests and queued URLs equal to `Sync`, and raises one notification iff no request failed and URLs were queued |
| Issues.IssueList.UpdateIssues | src/Issues.tsx:351-409 | within 60 000 ms of the last refresh nothing changes, even when forced; otherwise `lastRefresh := now`, a failed id query changes nothing else, and a successful one sets the id list and leaves the cache, requests and queued URLs equal to `Sync`; one notification is raised iff no request failed and URLs were queued |
| Issues.IsVisible | src/Issues.tsx:222-224 | an open entry and one updated within 30 days are shown; a closed entry without a closing time is judged by its update time alone |
| Issues.VisibleKeys | src/Issues.tsx:221-224 | a key is kept iff it is cached and open, or closed less than 30 days ago, or updated less than 30 days ago |
| Issues.VisibleKeysCounts | src/Issues.tsx:221-224 | each visible key is kept as often as it occurs in the key list; every other key is dropped |
| Issues.InsertByRecency | src/Issues.tsx:225 | insertion keeps most-recently-updated-first order and adds only the new key |
| Issues.InsertByRecencyPermutes | src/Issues.tsx:225 | insertion adds exactly the new key |
| Issues.SortByRecency | src/Issues.tsx:225 | the result is ordered by `lastUpdated`, descending, and holds only input keys |
| Issues.SortByRecencyPermutes | src/Issues.tsx:225 | sorting is a permutation |
| Issues.VisibleIssues | src/Issues.tsx:219-225 | exactly the visible keys, as a permutation of `VisibleKeys` (so each as often as in the key list, by `VisibleKeysCounts`), sorted by `lastUpdated` descending |
| FeedbackResponder.ValidateMessage | src/FeedbackResponderDialog.tsx:340-351 | validation fails iff 0 < length < 10: the empty message and any of length at least 10 pass |
| FeedbackResponder.SubmitEnabled | src/FeedbackResponderDialog.tsx:399-401 | submitting is enabled iff not sending and the message has at least 10 characters |
| FeedbackResponder.SumSizesReplace | src/FeedbackResponderDialog.tsx:526-532 | re-registering a name changes the total (`SumSizes`, the `reduce` over the registered sizes at src/FeedbackResponderDialog.tsx:526-527) by the size difference |
| FeedbackResponder.SumSizesAdd | src/FeedbackResponderDialog.tsx:526-532 | registering a new name adds its size to the total |
| FeedbackResponder.AddKey | src/FeedbackResponderDialog.tsx:532 | a new name goes last, an existing one keeps its place; keys stay distinct |
| FeedbackResponder.IndexOf | src/FeedbackResponderDialog.tsx:295 | the first position of the key, or -1 iff absent |
| FeedbackResponder.RemainingKeys | src/FeedbackResponderDialog.tsx:295-296 | a removal from a non-empty registry always drops exactly one key, registered or not |
| FeedbackResponder.RemovePresent | src/FeedbackResponderDialog.tsx:291-303 | removing a registered key deletes exactly that key and keeps the others in order |
| FeedbackResponder.RemoveAbsent | src/FeedbackResponderDialog.tsx:291-303 | removing an unregistered key removes the last key (`splice(-1, 1)`) |
| FeedbackResponder.RemainingKeysSubset | src/FeedbackResponderDialog.tsx:291-303 | what remains is distinct and was registered |
| FeedbackResponder.RemoveShrinks | src/FeedbackResponderDialog.tsx:291-303 | removal never increases the total size |
| FeedbackResponder.TrimDropsTrailingSeparators | src/FeedbackResponderDialog.tsx:500 | trimming drops exactly the trailing `/` and `\` |
| FeedbackResponder.AfterLastSeparatorIsLastComponent | src/FeedbackResponderDialog.tsx:500 | the longest separator-free suffix |
| FeedbackResponder.Basename | src/FeedbackResponderDialog.tsx:500 | the base name is no longer than the path and holds no separator |
| FeedbackResponder.LastDotFindsLastDot | src/FeedbackResponderDialog.tsx:503 | the position of the last dot, none after it, none iff there is no dot |
| FeedbackResponder.LastDotIsLast | src/FeedbackResponderDialog.tsx:503 | a dot with no dot after it is the one found |
| FeedbackResponder.ExtName | src/FeedbackResponderDialog.tsx:503 | the extension is empty or starts with a dot |
| FeedbackResponder.DefaultType | src/FeedbackResponderDialog.tsx:503 | a given non-empty type is used as is; otherwise the type is the extension without its dot, and empty for a path without extension |
| FeedbackResponder.ExtNameShape | src/FeedbackResponderDialog.tsx:500-503 | the base name has no separator; the extension is empty or a dot followed by separator-free text |
| FeedbackResponder.BasenameOfJoin | src/FeedbackResponderDialog.tsx:500 | the base name of `dir` + separator + `name` is `name` |
| FeedbackResponder.DefaultTypeOfJoin | src/FeedbackResponderDialog.tsx:496-509 | without a given type, `dir/stem.ext` is typed `ext` |
| FeedbackResponder.AttachMenu | src/FeedbackResponderDialog.tsx:436-445 | at most two actions; nothing for an unknown entry; only the "log" and "netlog" entries attach files from disk |
| FeedbackResponder.MenuFilesTemporaryExactlyForDumps | src/FeedbackResponderDialog.tsx:436-521 | every state or action dump the menu makes is typed "State" and so temporary; every log it attaches is typed "log" and not |
| FeedbackResponder.FilePaths | src/FeedbackResponderDialog.tsx:554-557 | one path per registered key, in key order |
| FeedbackResponder.CollectFilePaths | src/FeedbackResponderDialog.tsx:554-557 | the push loop yields `FilePaths` |
| FeedbackResponder.TempPaths | src/FeedbackResponderDialog.tsx:605-610 | exactly the paths of files typed State, Dump or LogCopy |
| FeedbackResponder.TempPathsAreAttachments | src/FeedbackResponderDialog.tsx:554-610 | only attached files are deleted |
| FeedbackResponder.FailureDetail | src/FeedbackResponderDialog.tsx:568-575 | the error object itself is shown exactly when the error is not `ParameterInvalid` and has no body |
| FeedbackResponder.FailureDetailKeepsMessage | src/FeedbackResponderDialog.tsx:568-575 | `ParameterInvalid` shows the message; otherwise a body is appended after " - "; otherwise the error itself is shown; any text shown starts with the error's message |
| FeedbackResponder.FindOutstanding | src/FeedbackResponderDialog.tsx:586-587 | the first outstanding entry for the number, none iff no entry has it |
| FeedbackResponder.FindByNumberText | src/FeedbackResponderDialog.tsx:188 | the first entry whose rendered number is the text (none before it matches), none iff no entry matches |
| FeedbackResponder.SelectByRenderedNumber | src/FeedbackResponderDialog.tsx:184-192 | selecting by rendered number finds the same entry as looking the number up |
| FeedbackResponder.WithoutIssue | src/FeedbackResponderDialog.tsx:622-623 | keeps exactly the entries with another number; shorter iff some entry had the number |
| FeedbackResponder.WithoutIssueKeepsOrder | src/FeedbackResponderDialog.tsx:622-623 | the kept entries are those of the list with another number, in their original order (a strictly increasing index map covering every such entry) |
| FeedbackResponder.MatchingKeys | src/FeedbackResponderDialog.tsx:590-591 | exactly the cache keys whose entry has the number |
| FeedbackResponder.Overlay | src/FeedbackResponderDialog.tsx:589-602 | the keys are the store's plus the stamped ones; every stamped entry carries the response time; every other entry is unchanged |
| FeedbackResponder.ResponseStampsMatchingEntries | src/FeedbackResponderDialog.tsx:589-602 | every captured entry of the issue is written back stamped with the comment time; all other keys keep their entry |
| FeedbackResponder.ResponseOnUnchangedCache | src/FeedbackResponderDialog.tsx:589-602 | on an unchanged cache only the answered issue's entries change, and only in `lastCommentResponseMS` |
| FeedbackResponder.FeedbackResponderDialog.constructor | src/FeedbackResponderDialog.tsx:71-81 | starts cleared, not sending, with no files |
| FeedbackResponder.FeedbackResponderDialog.AddFeedbackFile | src/FeedbackResponderDialog.tsx:523-534 | if all registered sizes (including a same-named file) plus the new size exceed 20 MiB: nothing changes and "Attachment too big" is shown; otherwise the file is registered under its name and nothing else changes; the invariant, budget included, holds |
| FeedbackResponder.FeedbackResponderDialog.AttachFile | src/FeedbackResponderDialog.tsx:496-509 | a found file is added under its base name, typed by the given type or else its extension without the dot; a missing or unreadable file adds nothing |
| FeedbackResponder.FeedbackResponderDialog.AttachDump | src/FeedbackResponderDialog.tsx:455-494 | a state or action dump is added under its title, typed "State" |
| FeedbackResponder.FeedbackResponderDialog.Remove | src/FeedbackResponderDialog.tsx:291-303 | the keys become `RemainingKeys`; remaining files are unchanged |
| FeedbackResponder.FeedbackResponderDialog.SetMessage | src/FeedbackResponderDialog.tsx:432-434 | sets the message only |
| FeedbackResponder.FeedbackResponderDialog.Select | src/FeedbackResponderDialog.tsx:184-192 | changes the current issue only when an outstanding entry's number matches, to the first such entry |
| FeedbackResponder.FeedbackResponderDialog.ReceiveOutstanding | src/FeedbackResponderDialog.tsx:83-90 | with no current issue and a non-empty list, the first entry's issue becomes current |
| FeedbackResponder.FeedbackResponderDialog.Close | src/FeedbackResponderDialog.tsx:410-413 | closes the dialog only |
| FeedbackResponder.FeedbackResponderDialog.Clear | src/FeedbackResponderDialog.tsx:635-639 | no files, no message, no current issue; nothing else changes |
| FeedbackResponder.FeedbackResponderDialog.BeginSubmit | src/FeedbackResponderDialog.tsx:540-564 | marks sending; request title "Response to #N", body system info + newline + message, attachments the registered paths in key order, anonymous iff no API key; captures number, files, outstanding list and cache |
| FeedbackResponder.FeedbackResponderDialog.StampResponded | src/FeedbackResponderDialog.tsx:589-602 | writes every matching captured entry with the comment time over the cache |
| FeedbackResponder.FeedbackResponderDialog.ReportFailure | src/FeedbackResponderDialog.tsx:566-578 | the error is shown by its shape, the dialog is cleared and closed, and the cache, outstanding list, notices and deletions are untouched |
| FeedbackResponder.FeedbackResponderDialog.Reconcile | src/FeedbackResponderDialog.tsx:586-639 | matching captured entries are stamped over the cache, exactly the temporary files are queued for deletion, the issue leaves the outstanding list, the dialog closes iff that list is empty, and it is cleared |
| FeedbackResponder.FeedbackResponderDialog.CompleteSubmit | src/FeedbackResponderDialog.tsx:565-633 | failure: error shown by shape, cleared, closed, and cache, outstanding list and deletions untouched. Success: notice shown; when the entry and its comment exist (`ResponseTime`, the lookup at src/FeedbackResponderDialog.tsx:586-589), matching entries are stamped, exactly the temporary files are queued for deletion, the issue leaves the outstanding list, the dialog closes iff that list is empty, and the dialog is cleared |

## Behaviour worth noting

Each of these is what the code does, where a reader might expect otherwise; the model follows the code.

- **A failed fetch during a refresh.** It rejects the `Promise.mapSeries` chain (src/Issues.tsx:366-409). Later ids are skipped and no notification is raised (`SyncFailureFreezes`). Writes made before the failure stay (`SyncKeepsEarlierWrites`). One might expect the failed id to be skipped and the others to proceed.
- **The cache key.** It is the *requested* id (src/Issues.tsx:388), not the resolved number. So a duplicate's entry sits under the duplicate's id, and "key equals the stringified number" does not hold.
- **Labels.** They are kept as a list in label order, duplicates included (src/util.ts:23, src/Issues.tsx:329), not as a set.
- **Removing an unregistered file name.** This removes the last registered file (`splice(-1, 1)`, src/FeedbackResponderDialog.tsx:295-296). It is not a no-op.
- **Temporary-file deletion.** It happens only after a successful delivery. The failure branch returns first (src/FeedbackResponderDialog.tsx:576-578).
- **The anonymity flag.** It is "no API key" alone. The component's `anonymous` state field is never used for it (src/FeedbackResponderDialog.tsx:564).
- **Submit guards.** `doSubmitFeedback` itself checks neither the message rule nor `sending`. Only the button does (src/FeedbackResponderDialog.tsx:399-401). `BeginSubmit` requires a current issue and no pending delivery, as the button guarantees. It does not require the message rule.

## Left out

- Issues.RequestIssue: the code follows redirects without bound. The model takes a `fuel` bound and fails with `DuplicateChainTooDeep` when it runs out. This failure is a modelling addition. `MoreFuelSameResult` shows that more fuel never changes any other answer.
- Issues.IssueList.RefreshAll: the per-id resolution is a function field of its input. `UpdateIssues` sets it to `Resolver(tracker, fuel)`, which is `requestIssue` against the tracker.
- Issues.IssueList.UpdateIssues: the `issues` prop is read as the snapshot the refresh began with. The cache writes go to `issues`, the store, and do not feed back into the staleness test or `hasBeenNotified`. This matches the props destructured at the start of `updateIssues`.
- Issues.IssueList.UpdateIssues: `Date.now()` is three inputs: `now` for both the cooldown test and `lastRefresh` (two separate reads in the code, src/Issues.tsx:354 and :360, which the model takes as equal), `listTime` for staleness, and `clock(k)` for the k-th id's `cacheTime`. The `updating` spinner flag and the mounted check are UI and are left out. A failed id-list query is only logged.
- Issues.SortByRecency: stability is implemented (ties keep key order) but not stated as a lemma. `lastUpdated` is an integer, so the `NaN` that `Date.parse` gives for a malformed date, and its effect on the comparator, is not modelled.
- Issues.VisibleIssues: the key order of `Object.keys` is a parameter. JavaScript puts integer-like keys first in ascending order, and that is not modelled.
- Util.CacheEntry: `Date.parse` is not modelled. Times arrive as integers, and a missing `closed_at` is `None`.
- FeedbackResponder.AddKey: the key list stands for `Object.keys` of the file map, so a new name goes last (insertion order). JavaScript enumerates integer-like keys (a file named `12`, say) first and in ascending order; that exception is not modelled.
- FeedbackResponder.Basename: Windows drive prefixes (`C:name`) are not stripped. Both `/` and `\` are separators.
- FeedbackResponder.FeedbackResponderDialog.CompleteSubmit: when the outstanding entry or its developer comment is missing, the code throws a TypeError in the callback. The model stops there, after `sending := false` and the success notice. The re-selection that a later outstanding-list update triggers is a separate `ReceiveOutstanding` call.
- FeedbackResponder.FeedbackResponderDialog.CompleteSubmit: failures of the temporary-file deletions, and the notice they raise, are I/O and are not modelled. Only the list of paths queued for deletion is recorded.
- FeedbackResponder.FeedbackResponderDialog.BeginSubmit: `systemInfo` is an opaque input string, because it reads the version, memory and OS of the host. The "Submitting feedback" activity notice and its dismissal are host plumbing.
- The HTTPS transport, chunked reading and `JSON.parse` are not modelled. They are the oracle's reply. So are the `request-own-issues` and `submit-feedback` event-bus calls, which become the `query` input and the `outcome` input.
- Temporary-file creation and writing, `fs.statAsync`, and the redux-log and store dumps are not modelled. They become the `tmpPath`, `size` and `StatResult` inputs of `AttachDump` and `AttachFile`.
- React rendering, translation, `opn` link opening and the milestone completion percentage (floating point) are left out. The issue list's own copy of `isFeedbackRequiredLabel` (src/Issues.tsx:113-115) is the same allow-list as `Util.IsFeedbackRequiredLabel`.
- Text lengths count Dafny characters. JavaScript counts UTF-16 code units, so the 10-character rule differs for characters outside the Basic Multilingual Plane.
- Concurrency between the refresh and the dialog is not modelled: the two classes keep separate copies of the cache. Other asynchronous interleavings are not modelled either: each Promise chain is one sequential step.
