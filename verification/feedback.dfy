/**
 * The feedback responder dialog: the message rule, the attachment registry
 * with its size budget, issue selection, the shape of the delivery request
 * and the reconciliation after delivery.
 */
module FeedbackResponder {
  import opened Wrappers
  import opened GithubIssue
  import opened Text

  const MAX_ATTACHMENT_SIZE: nat := 20 * 1024 * 1024
  const MIN_TEXT_LENGTH: nat := 10

  const TOO_BIG_TITLE := "Attachment too big"
  const TOO_BIG_DETAIL := "Sorry, the combined file size must not exceed 20MB"
  const SEND_FAILED_TITLE := "Failed to send feedback"
  const SENT_NOTICE := "Feedback response sent successfully"

  /** A registered attachment; `fileType` is the type tag the deletion rule reads. */
  datatype FeedbackFile = FeedbackFile(filename: string, filePath: string, fileType: string, size: nat)

  /** An issue awaiting the user's response, with the developer comment that asked for it. */
  datatype OutstandingIssue = OutstandingIssue(issue: Issue, lastDevComment: Option<Comment>)

  /** The error the delivery service reports. */
  datatype DeliveryError = DeliveryError(name: string, message: string, body: Option<string>)

  /** What an error notification shows: a text, or the error object itself. */
  datatype ErrorDetail = Message(text: string) | Raised(error: DeliveryError)

  datatype ShownError = ShownError(title: string, detail: ErrorDetail)

  /** What is handed to the delivery service. */
  datatype SubmissionRequest = SubmissionRequest(title: string, body: string, attachments: seq<string>, anonymous: bool)

  /** The outcome of looking a file up on disk. */
  datatype StatResult = Found(size: nat) | NotFound | StatFailed

  /** What the delivery callback captured when the submission began. */
  datatype Pending = Pending(
    number: nat,
    fileKeys: seq<string>,
    files: map<string, FeedbackFile>,
    outstanding: seq<OutstandingIssue>,
    issues: map<string, IssueCache>)

  // ---------------------------------------------------------------------------
  // The message rule
  // ---------------------------------------------------------------------------

  /**
   * `validateMessage`: the error text, or None when the message is acceptable.
   * The empty message and every message of at least MIN_TEXT_LENGTH characters pass.
   */
  function ValidateMessage(message: string): (r: Option<string>)
    ensures r.None? <==> |message| == 0 || |message| >= MIN_TEXT_LENGTH
  {
    if 0 < |message| < MIN_TEXT_LENGTH then
      Some("Please provide a response of at least " + DecimalString(MIN_TEXT_LENGTH) + " characters")
    else None
  }

  /**
   * The submit button's enabling expression: submitting is possible exactly
   * when nothing is being sent and the message is long enough.
   */
  predicate SubmitEnabled(sending: bool, message: string)
    ensures SubmitEnabled(sending, message) <==> !sending && |message| >= MIN_TEXT_LENGTH
  {
    !(sending || |message| == 0 || ValidateMessage(message).Some?)
  }

  // ---------------------------------------------------------------------------
  // The attachment registry
  // ---------------------------------------------------------------------------

  predicate Distinct(keys: seq<string>) {
    forall i, j :: 0 <= i < j < |keys| ==> keys[i] != keys[j]
  }

  function FileSize(files: map<string, FeedbackFile>, key: string): nat {
    if key in files then files[key].size else 0
  }

  /** The combined size of the files registered under `keys`. */
  function SumSizes(keys: seq<string>, files: map<string, FeedbackFile>): nat {
    if keys == [] then 0 else FileSize(files, keys[0]) + SumSizes(keys[1..], files)
  }

  lemma {:induction false} SumSizesConcat(a: seq<string>, b: seq<string>, files: map<string, FeedbackFile>)
    ensures SumSizes(a + b, files) == SumSizes(a, files) + SumSizes(b, files)
  {
    if a == [] {
      assert a + b == b;
    } else {
      assert (a + b)[0] == a[0];
      assert (a + b)[1..] == a[1..] + b;
      SumSizesConcat(a[1..], b, files);
    }
  }

  /** Changing the file of a key outside `keys` leaves their sum alone. */
  lemma {:induction false} SumSizesIgnores(keys: seq<string>, files: map<string, FeedbackFile>, k: string, f: FeedbackFile)
    requires k !in keys
    ensures SumSizes(keys, files[k := f]) == SumSizes(keys, files)
  {
    if keys != [] {
      SumSizesIgnores(keys[1..], files, k, f);
    }
  }

  /** Dropping map entries no key refers to leaves the sum alone. */
  lemma {:induction false} SumSizesRestrict(keys: seq<string>, files: map<string, FeedbackFile>, kept: set<string>)
    requires forall i :: 0 <= i < |keys| ==> keys[i] in kept
    ensures SumSizes(keys, map k | k in files.Keys * kept :: files[k]) == SumSizes(keys, files)
  {
    if keys != [] {
      SumSizesRestrict(keys[1..], files, kept);
    }
  }

  /** Replacing the file of a registered key changes the sum by the difference of the two sizes. */
  lemma SumSizesReplace(keys: seq<string>, files: map<string, FeedbackFile>, k: string, f: FeedbackFile)
    requires Distinct(keys) && k in keys
    ensures SumSizes(keys, files[k := f]) == SumSizes(keys, files) - FileSize(files, k) + f.size
  {
    var i :| 0 <= i < |keys| && keys[i] == k;
    var before, after := keys[..i], keys[i + 1..];
    assert keys == before + [k] + after;
    assert k !in before && k !in after;
    SumSizesConcat(before + [k], after, files);
    SumSizesConcat(before, [k], files);
    SumSizesConcat(before + [k], after, files[k := f]);
    SumSizesConcat(before, [k], files[k := f]);
    SumSizesIgnores(before, files, k, f);
    SumSizesIgnores(after, files, k, f);
  }

  /** Registering a new key adds its size to the sum. */
  lemma SumSizesAdd(keys: seq<string>, files: map<string, FeedbackFile>, k: string, f: FeedbackFile)
    requires k !in keys
    ensures SumSizes(keys + [k], files[k := f]) == SumSizes(keys, files) + f.size
  {
    SumSizesConcat(keys, [k], files[k := f]);
    SumSizesIgnores(keys, files, k, f);
  }

  /** The combined budget admits `f` when everything registered plus `f` stays within it. */
  predicate Admits(keys: seq<string>, files: map<string, FeedbackFile>, f: FeedbackFile) {
    SumSizes(keys, files) + f.size <= MAX_ATTACHMENT_SIZE
  }

  /** The key order after registering under `name`: a new key goes last, an existing one keeps its place. */
  function AddKey(keys: seq<string>, name: string): (r: seq<string>)
    ensures forall k :: k in r <==> k in keys || k == name
    ensures Distinct(keys) ==> Distinct(r)
    ensures name in keys ==> r == keys
    ensures name !in keys ==> r == keys + [name]
  {
    if name in keys then keys else keys + [name]
  }

  // ---------------------------------------------------------------------------
  // Removal: `indexOf` followed by `splice(idx, 1)`
  // ---------------------------------------------------------------------------

  /** `Array.prototype.indexOf`: the first position of `x`, or -1. */
  function IndexOf(keys: seq<string>, x: string): (r: int)
    ensures -1 <= r < |keys|
    ensures r == -1 <==> x !in keys
    ensures r >= 0 ==> keys[r] == x && forall j :: 0 <= j < r ==> keys[j] != x
  {
    if keys == [] then -1
    else if keys[0] == x then 0
    else
      var r := IndexOf(keys[1..], x);
      if r == -1 then -1 else r + 1
  }

  /**
   * What `splice(start, 1)` leaves: a negative start counts from the end (and
   * is clamped to the first element), a start past the end removes nothing.
   */
  function SpliceOne(keys: seq<string>, start: int): seq<string> {
    var from :=
      if start < 0 then (if |keys| + start < 0 then 0 else |keys| + start)
      else if start > |keys| then |keys| else start;
    if from < |keys| then keys[..from] + keys[from + 1..] else keys
  }

  /**
   * The key order after removing the file registered under `id`: a removal
   * always drops exactly one key, whether or not `id` is registered.
   */
  function RemainingKeys(keys: seq<string>, id: string): (r: seq<string>)
    ensures keys == [] ==> r == []
    ensures keys != [] ==> |r| == |keys| - 1
  {
    SpliceOne(keys, IndexOf(keys, id))
  }

  /** Removing a registered key deletes exactly that key and keeps the order of the rest. */
  lemma RemovePresent(keys: seq<string>, id: string)
    requires Distinct(keys) && id in keys
    ensures var r := RemainingKeys(keys, id);
      && |r| == |keys| - 1
      && (forall k :: k in r <==> k in keys && k != id)
      && r == keys[..IndexOf(keys, id)] + keys[IndexOf(keys, id) + 1..]
  {
    var i := IndexOf(keys, id);
    var r := RemainingKeys(keys, id);
    assert r == keys[..i] + keys[i + 1..];
    assert keys == keys[..i] + [id] + keys[i + 1..];
    assert forall j :: 0 <= j < |keys| && j != i ==> keys[j] != id;
  }

  /** Removing an unregistered key removes the last key (an index of -1 counts from the end). */
  lemma RemoveAbsent(keys: seq<string>, id: string)
    requires id !in keys
    ensures RemainingKeys(keys, id) == if keys == [] then [] else keys[..|keys| - 1]
  {
  }

  /** What remains after a removal is registered and still free of repeats. */
  lemma RemainingKeysSubset(keys: seq<string>, id: string)
    requires Distinct(keys)
    ensures var r := RemainingKeys(keys, id);
      && Distinct(r)
      && (forall k :: k in r ==> k in keys)
  {
    var r := RemainingKeys(keys, id);
    var i := IndexOf(keys, id);
    var from := if i < 0 then (if |keys| + i < 0 then 0 else |keys| + i) else i;
    if from < |keys| {
      assert r == keys[..from] + keys[from + 1..];
      assert forall a :: 0 <= a < |r| ==> r[a] == (if a < from then keys[a] else keys[a + 1]);
    }
  }

  /** Removal never increases the combined size. */
  lemma RemoveShrinks(keys: seq<string>, files: map<string, FeedbackFile>, id: string)
    ensures SumSizes(RemainingKeys(keys, id), files) <= SumSizes(keys, files)
  {
    var i := IndexOf(keys, id);
    var from := if i < 0 then (if |keys| + i < 0 then 0 else |keys| + i) else i;
    if from < |keys| {
      assert keys == keys[..from] + keys[from..];
      assert keys[from..] == [keys[from]] + keys[from + 1..];
      SumSizesConcat(keys[..from], keys[from..], files);
      SumSizesConcat([keys[from]], keys[from + 1..], files);
      SumSizesConcat(keys[..from], keys[from + 1..], files);
    }
  }

  // ---------------------------------------------------------------------------
  // File names and types (path.basename / path.extname, both separators)
  // ---------------------------------------------------------------------------

  predicate IsSeparator(c: char) {
    c == '/' || c == '\\'
  }

  predicate NoSeparator(s: string) {
    forall i :: 0 <= i < |s| ==> !IsSeparator(s[i])
  }

  /** The path without its trailing separators. */
  function TrimTrailingSeparators(p: string): (r: string)
    ensures |r| <= |p|
  {
    if p == [] then []
    else if IsSeparator(p[|p| - 1]) then TrimTrailingSeparators(p[..|p| - 1])
    else p
  }

  /** Exactly the trailing separators are dropped. */
  lemma {:induction false} TrimDropsTrailingSeparators(p: string)
    ensures var r := TrimTrailingSeparators(p);
      && r == p[..|r|]
      && (r == [] || !IsSeparator(r[|r| - 1]))
      && (forall i :: |r| <= i < |p| ==> IsSeparator(p[i]))
  {
    if p != [] && IsSeparator(p[|p| - 1]) {
      var init := p[..|p| - 1];
      TrimDropsTrailingSeparators(init);
      assert forall i :: 0 <= i < |init| ==> init[i] == p[i];
    }
  }

  /** The longest suffix without a separator. */
  function AfterLastSeparator(p: string): (r: string)
    ensures |r| <= |p|
  {
    if p == [] then []
    else if IsSeparator(p[|p| - 1]) then []
    else AfterLastSeparator(p[..|p| - 1]) + [p[|p| - 1]]
  }

  /** `AfterLastSeparator` is a separator-free suffix that starts at the path's start or right after a separator. */
  lemma {:induction false} AfterLastSeparatorIsLastComponent(p: string)
    ensures var r := AfterLastSeparator(p);
      && NoSeparator(r)
      && r == p[|p| - |r|..]
      && (|r| < |p| ==> IsSeparator(p[|p| - |r| - 1]))
  {
    if p != [] && !IsSeparator(p[|p| - 1]) {
      var init, c := p[..|p| - 1], p[|p| - 1];
      AfterLastSeparatorIsLastComponent(init);
      var r0 := AfterLastSeparator(init);
      var r := r0 + [c];
      assert AfterLastSeparator(p) == r;
      assert p == init + [c];
      assert p[|p| - |r|..] == init[|init| - |r0|..] + [c];
      forall i | 0 <= i < |r|
        ensures !IsSeparator(r[i])
      {
        if i < |r0| {
          assert r[i] == r0[i];
        }
      }
      if |r| < |p| {
        assert p[|p| - |r| - 1] == init[|init| - |r0| - 1];
      }
    }
  }

  /** `path.basename`: the last component, trailing separators ignored; it holds no separator. */
  function Basename(p: string): (r: string)
    ensures |r| <= |p| && NoSeparator(r)
  {
    AfterLastSeparatorIsLastComponent(TrimTrailingSeparators(p));
    AfterLastSeparator(TrimTrailingSeparators(p))
  }

  /** The position of the last dot. */
  function LastDot(s: string): (r: Option<nat>)
    ensures r.Some? ==> r.value < |s|
  {
    if s == [] then None
    else if s[|s| - 1] == '.' then Some(|s| - 1)
    else LastDot(s[..|s| - 1])
  }

  /** `LastDot` finds a dot with none after it, and finds none only when there is no dot. */
  lemma {:induction false} LastDotFindsLastDot(s: string)
    ensures var r := LastDot(s);
      && (r.None? ==> forall i :: 0 <= i < |s| ==> s[i] != '.')
      && (r.Some? ==> s[r.value] == '.' && forall i :: r.value < i < |s| ==> s[i] != '.')
  {
    if s != [] && s[|s| - 1] != '.' {
      var init := s[..|s| - 1];
      LastDotFindsLastDot(init);
      assert forall i :: 0 <= i < |init| ==> init[i] == s[i];
    }
  }

  /**
   * `path.extname`: from the last dot of the last component to its end; empty
   * when there is no dot, when the dot opens the name, and for "..".
   */
  function ExtName(p: string): (r: string)
    ensures r == [] || r[0] == '.'
  {
    var b := Basename(p);
    match LastDot(b)
    case None => []
    case Some(d) =>
      LastDotFindsLastDot(b);
      if d == 0 || b == ".." then [] else b[d..]
  }

  /** A base name has no separator; an extension is empty or a dot followed by text without separators. */
  lemma ExtNameShape(p: string)
    ensures NoSeparator(Basename(p))
    ensures var e := ExtName(p); e == [] || (e[0] == '.' && NoSeparator(e))
  {
    AfterLastSeparatorIsLastComponent(TrimTrailingSeparators(p));
    LastDotFindsLastDot(Basename(p));
  }

  /** The type an attached file gets: the given one unless it is missing or empty, else the extension without its dot. */
  function DefaultType(filePath: string, fileType: Option<string>): (r: string)
    ensures fileType.Some? && fileType.value != "" ==> r == fileType.value
    ensures (fileType.None? || fileType.value == "") ==> ExtName(filePath) == [] || ExtName(filePath) == "." + r
    ensures (fileType.None? || fileType.value == "") && ExtName(filePath) == [] ==> r == []
  {
    if fileType.Some? && fileType.value != "" then fileType.value
    else var e := ExtName(filePath); if e == [] then [] else e[1..]
  }

  /** The file `attachFile` registers for a file found on disk. */
  function StatFile(filePath: string, fileType: Option<string>, size: nat): FeedbackFile {
    FeedbackFile(Basename(filePath), filePath, DefaultType(filePath, fileType), size)
  }

  lemma {:induction false} AfterLastSeparatorOfName(dir: string, name: string)
    requires NoSeparator(name)
    ensures AfterLastSeparator(dir + name) == (if |dir| > 0 && !IsSeparator(dir[|dir| - 1]) then AfterLastSeparator(dir) + name else name)
  {
    if name == [] {
      assert dir + name == dir;
    } else {
      var init, last := name[..|name| - 1], name[|name| - 1];
      assert (dir + name)[..|dir + name| - 1] == dir + init;
      assert (dir + name)[|dir + name| - 1] == last;
      assert init + [last] == name;
      AfterLastSeparatorOfName(dir, init);
    }
  }

  /** A dot with no dot after it is the last dot. */
  lemma LastDotIsLast(s: string, d: nat)
    requires d < |s| && s[d] == '.' && forall i :: d < i < |s| ==> s[i] != '.'
    ensures LastDot(s) == Some(d)
  {
    LastDotFindsLastDot(s);
  }

  /** A name joined under a directory is that path's basename. */
  lemma BasenameOfJoin(dir: string, sep: char, name: string)
    requires IsSeparator(sep) && name != [] && NoSeparator(name)
    ensures Basename(dir + [sep] + name) == name
  {
    var p := dir + [sep] + name;
    assert TrimTrailingSeparators(p) == p;
    AfterLastSeparatorOfName(dir + [sep], name);
  }

  /** A file `stem.ext` joined under a directory has extension `.ext`, so its default type is `ext`. */
  lemma DefaultTypeOfJoin(dir: string, sep: char, stem: string, ext: string)
    requires IsSeparator(sep) && stem != [] && NoSeparator(stem)
    requires ext != [] && NoSeparator(ext) && forall i :: 0 <= i < |ext| ==> ext[i] != '.'
    ensures DefaultType(dir + [sep] + stem + "." + ext, None) == ext
  {
    var p := dir + [sep] + stem + "." + ext;
    ExtNameOfJoin(dir, sep, stem, ext);
    assert ("." + ext)[1..] == ext;
  }

  lemma ExtNameOfJoin(dir: string, sep: char, stem: string, ext: string)
    requires IsSeparator(sep) && stem != [] && NoSeparator(stem)
    requires ext != [] && NoSeparator(ext) && forall i :: 0 <= i < |ext| ==> ext[i] != '.'
    ensures ExtName(dir + [sep] + stem + "." + ext) == "." + ext
  {
    var name := stem + "." + ext;
    var p := dir + [sep] + stem + "." + ext;
    assert Basename(p) == name by {
      assert p == dir + [sep] + name;
      BasenameOfJoin(dir, sep, name);
    }
    assert LastDot(name) == Some(|stem|) && name != ".." && name[|stem|..] == "." + ext by {
      NameExtension(stem, ext);
    }
  }

  lemma NameExtension(stem: string, ext: string)
    requires stem != [] && ext != [] && forall i :: 0 <= i < |ext| ==> ext[i] != '.'
    ensures var name := stem + "." + ext;
      && LastDot(name) == Some(|stem|) && name != ".." && name[|stem|..] == "." + ext
  {
    var name := stem + "." + ext;
    assert forall i :: |stem| < i < |name| ==> name[i] == ext[i - |stem| - 1];
    LastDotIsLast(name, |stem|);
    assert name[|name| - 1] == ext[|ext| - 1];
    assert name[|stem|..] == "." + ext;
  }

  // ---------------------------------------------------------------------------
  // The attach menu
  // ---------------------------------------------------------------------------

  /** One thing an attach menu entry does. */
  datatype AttachAction =
    | AttachLogFile(fileName: string)                 // a file in the user data directory, typed "log"
    | AttachStateDump(stateKey: string, title: string) // a slice of the application state, dumped to a temporary file
    | AttachActionLog(title: string)                  // the recent state changes, dumped to a temporary file

  /**
   * `attach`: what each menu entry attaches. Only the two log entries attach
   * files from disk; an unknown entry attaches nothing.
   */
  function AttachMenu(eventKey: string): (r: seq<AttachAction>)
    ensures |r| <= 2
    ensures r == [] <==> eventKey !in {"log", "netlog", "actions", "session", "settings", "state"}
    ensures forall a :: a in r ==> (a.AttachLogFile? <==> eventKey == "log" || eventKey == "netlog")
  {
    if eventKey == "log" then [AttachLogFile("vortex.log"), AttachLogFile("vortex1.log")]
    else if eventKey == "netlog" then [AttachLogFile("network.log")]
    else if eventKey == "actions" then [AttachActionLog("Action History")]
    else if eventKey == "session" then [AttachStateDump("session", "Vortex Session")]
    else if eventKey == "settings" then [AttachStateDump("settings", "Vortex Settings")]
    else if eventKey == "state" then [AttachStateDump("persistent", "Vortex State")]
    else []
  }

  /** The file a dump registers: its title as name, the temporary path, typed "State". */
  function DumpFile(title: string, tmpPath: string, size: nat): FeedbackFile {
    FeedbackFile(title, tmpPath, "State", size)
  }

  /** The type tags whose files are deleted after a delivery. */
  predicate IsTemporary(f: FeedbackFile) {
    f.fileType == "State" || f.fileType == "Dump" || f.fileType == "LogCopy"
  }

  /** Every dump the menu makes is temporary; every log file it attaches is not. */
  lemma MenuFilesTemporaryExactlyForDumps(eventKey: string, userData: string, sep: char, tmpPath: string, size: nat)
    requires IsSeparator(sep)
    ensures forall a :: a in AttachMenu(eventKey) && a.AttachLogFile? ==>
      !IsTemporary(StatFile(userData + [sep] + a.fileName, Some("log"), size))
    ensures forall a :: a in AttachMenu(eventKey) && a.AttachStateDump? ==> IsTemporary(DumpFile(a.title, tmpPath, size))
    ensures forall a :: a in AttachMenu(eventKey) && a.AttachActionLog? ==> IsTemporary(DumpFile(a.title, tmpPath, size))
  {
  }

  // ---------------------------------------------------------------------------
  // Submission and reconciliation
  // ---------------------------------------------------------------------------

  predicate AllRegistered(keys: seq<string>, files: map<string, FeedbackFile>) {
    forall i :: 0 <= i < |keys| ==> keys[i] in files
  }

  /** The attachment paths of the request, in key order. */
  function FilePaths(keys: seq<string>, files: map<string, FeedbackFile>): (r: seq<string>)
    requires AllRegistered(keys, files)
    ensures |r| == |keys|
    ensures forall i :: 0 <= i < |keys| ==> r[i] == files[keys[i]].filePath
  {
    if keys == [] then []
    else FilePaths(keys[..|keys| - 1], files) + [files[keys[|keys| - 1]].filePath]
  }

  /** The `forEach` that pushes each registered file's path, in key order. */
  method CollectFilePaths(keys: seq<string>, files: map<string, FeedbackFile>) returns (paths: seq<string>)
    requires AllRegistered(keys, files)
    ensures paths == FilePaths(keys, files)
  {
    paths := [];
    for i := 0 to |keys|
      invariant paths == FilePaths(keys[..i], files)
    {
      assert keys[..i + 1][..i] == keys[..i];
      paths := paths + [files[keys[i]].filePath];
    }
    assert keys[..|keys|] == keys;
  }

  /** The paths of the registered files whose type tag marks them temporary, in key order. */
  function TempPaths(keys: seq<string>, files: map<string, FeedbackFile>): (r: seq<string>)
    ensures |r| <= |keys|
    ensures forall i :: 0 <= i < |keys| && keys[i] in files && IsTemporary(files[keys[i]]) ==> files[keys[i]].filePath in r
    ensures forall p :: p in r ==> exists i :: 0 <= i < |keys| && keys[i] in files && IsTemporary(files[keys[i]]) && files[keys[i]].filePath == p
  {
    if keys == [] then []
    else
      var rest := TempPaths(keys[1..], files);
      assert forall p :: p in rest ==> exists i :: 0 <= i < |keys| && keys[i] in files && IsTemporary(files[keys[i]]) && files[keys[i]].filePath == p by {
        forall p | p in rest
          ensures exists i :: 0 <= i < |keys| && keys[i] in files && IsTemporary(files[keys[i]]) && files[keys[i]].filePath == p
        {
          var j :| 0 <= j < |keys[1..]| && keys[1..][j] in files && IsTemporary(files[keys[1..][j]]) && files[keys[1..][j]].filePath == p;
          assert keys[j + 1] == keys[1..][j];
        }
      }
      var k := keys[0];
      (if k in files && IsTemporary(files[k]) then [files[k].filePath] else []) + rest
  }

  /** Only attached files are ever deleted. */
  lemma TempPathsAreAttachments(keys: seq<string>, files: map<string, FeedbackFile>, p: string)
    requires AllRegistered(keys, files) && p in TempPaths(keys, files)
    ensures p in FilePaths(keys, files)
  {
    var i :| 0 <= i < |keys| && keys[i] in files && IsTemporary(files[keys[i]]) && files[keys[i]].filePath == p;
    assert FilePaths(keys, files)[i] == p;
  }

  /** What the failure notification shows: the error object itself only when there is no text to show. */
  function FailureDetail(err: DeliveryError): (r: ErrorDetail)
    ensures r.Raised? <==> err.name != "ParameterInvalid" && err.body.None?
    ensures r.Raised? ==> r.error == err
  {
    if err.name == "ParameterInvalid" then Message(err.message)
    else if err.body.Some? then Message(err.message + " - " + err.body.value)
    else Raised(err)
  }

  /** The failure notification always carries the error's own message. */
  lemma FailureDetailKeepsMessage(err: DeliveryError)
    ensures FailureDetail(err).Message? ==> StartsWith(FailureDetail(err).text, err.message)
    ensures FailureDetail(err).Raised? ==> FailureDetail(err).error == err && err.body.None?
    ensures FailureDetail(err) == Message(err.message) <== err.name == "ParameterInvalid"
    ensures err.name != "ParameterInvalid" && err.body.Some? ==>
      FailureDetail(err) == Message(err.message + " - " + err.body.value)
    ensures err.name != "ParameterInvalid" && err.body.None? ==> FailureDetail(err) == Raised(err)
  {
    if err.name != "ParameterInvalid" && err.body.Some? {
      assert (err.message + " - " + err.body.value)[..|err.message|] == err.message;
    }
  }

  /** The first outstanding entry for issue `number`. */
  function FindOutstanding(list: seq<OutstandingIssue>, number: nat): (r: Option<nat>)
    ensures r.Some? ==> r.value < |list| && list[r.value].issue.number == number
    ensures r.Some? ==> forall j :: 0 <= j < r.value ==> list[j].issue.number != number
    ensures r.None? <==> forall j :: 0 <= j < |list| ==> list[j].issue.number != number
  {
    if list == [] then None
    else if list[0].issue.number == number then Some(0)
    else
      match FindOutstanding(list[1..], number)
      case None => None
      case Some(i) => Some(i + 1)
  }

  /** The first outstanding entry whose rendered number is `text` (what `select` looks up). */
  function FindByNumberText(list: seq<OutstandingIssue>, text: string): (r: Option<nat>)
    ensures r.Some? ==> r.value < |list| && DecimalString(list[r.value].issue.number) == text
    ensures r.Some? ==> forall j :: 0 <= j < r.value ==> DecimalString(list[j].issue.number) != text
    ensures r.None? <==> forall j :: 0 <= j < |list| ==> DecimalString(list[j].issue.number) != text
  {
    if list == [] then None
    else if DecimalString(list[0].issue.number) == text then Some(0)
    else
      match FindByNumberText(list[1..], text)
      case None => None
      case Some(i) => Some(i + 1)
  }

  /** Selecting by the rendered number picks the same entry as looking the number up. */
  lemma {:induction false} SelectByRenderedNumber(list: seq<OutstandingIssue>, number: nat)
    ensures FindByNumberText(list, DecimalString(number)) == FindOutstanding(list, number)
  {
    if list != [] {
      if list[0].issue.number != number {
        DecimalStringInjective(list[0].issue.number, number);
      }
      SelectByRenderedNumber(list[1..], number);
    }
  }

  /** The outstanding list without the entries for issue `number`, in order. */
  function WithoutIssue(list: seq<OutstandingIssue>, number: nat): (r: seq<OutstandingIssue>)
    ensures |r| <= |list|
    ensures forall x :: x in r <==> x in list && x.issue.number != number
    ensures |r| == |list| <==> forall j :: 0 <= j < |list| ==> list[j].issue.number != number
  {
    if list == [] then []
    else
      var rest := WithoutIssue(list[1..], number);
      if list[0].issue.number == number then rest else [list[0]] + rest
  }

  /**
   * `idx` maps `r`, strictly increasingly, onto every entry of `list` with
   * another number than `number`: `r` is those entries in their order.
   */
  ghost predicate OrderedSelection(list: seq<OutstandingIssue>, number: nat, r: seq<OutstandingIssue>, idx: seq<nat>) {
    && |idx| == |r|
    && (forall i :: 0 <= i < |r| ==> idx[i] < |list| && r[i] == list[idx[i]])
    && (forall i, j :: 0 <= i < j < |idx| ==> idx[i] < idx[j])
    && (forall j :: 0 <= j < |list| && list[j].issue.number != number ==> j in idx)
  }

  /** Every index moved one place up. */
  function Shift(idx: seq<nat>): (r: seq<nat>)
    ensures |r| == |idx| && forall i :: 0 <= i < |idx| ==> r[i] == idx[i] + 1
  {
    seq(|idx|, i requires 0 <= i < |idx| => idx[i] + 1)
  }

  /** A dropped head: the selection of the tail, shifted by one. */
  lemma SelectionSkipsHead(x: OutstandingIssue, tail: seq<OutstandingIssue>, number: nat, r: seq<OutstandingIssue>, idx: seq<nat>)
    requires x.issue.number == number && OrderedSelection(tail, number, r, idx)
    ensures OrderedSelection([x] + tail, number, r, Shift(idx))
  {
    var list, shifted := [x] + tail, Shift(idx);
    forall i | 0 <= i < |r|
      ensures shifted[i] < |list| && r[i] == list[shifted[i]]
    {
      assert list[idx[i] + 1] == tail[idx[i]];
    }
    forall j | 0 <= j < |list| && list[j].issue.number != number
      ensures j in shifted
    {
      assert tail[j - 1] == list[j];
      var i :| 0 <= i < |idx| && idx[i] == j - 1;
      assert shifted[i] == j;
    }
  }

  /** A kept head: index 0, then the selection of the tail shifted by one. */
  lemma SelectionKeepsHead(x: OutstandingIssue, tail: seq<OutstandingIssue>, number: nat, r: seq<OutstandingIssue>, idx: seq<nat>)
    requires x.issue.number != number && OrderedSelection(tail, number, r, idx)
    ensures OrderedSelection([x] + tail, number, [x] + r, [0] + Shift(idx))
  {
    var list, shifted := [x] + tail, Shift(idx);
    var rr, ridx := [x] + r, [0] + shifted;
    assert |ridx| == |rr|;
    forall i | 0 <= i < |rr|
      ensures ridx[i] < |list| && rr[i] == list[ridx[i]]
    {
      if i > 0 {
        assert rr[i] == r[i - 1] && ridx[i] == idx[i - 1] + 1;
        assert list[idx[i - 1] + 1] == tail[idx[i - 1]];
      }
    }
    forall i, j | 0 <= i < j < |ridx|
      ensures ridx[i] < ridx[j]
    {
      assert ridx[j] == idx[j - 1] + 1;
      if i > 0 {
        assert ridx[i] == idx[i - 1] + 1;
      }
    }
    forall j | 0 <= j < |list| && list[j].issue.number != number
      ensures j in ridx
    {
      if j > 0 {
        assert tail[j - 1] == list[j];
        var i :| 0 <= i < |idx| && idx[i] == j - 1;
        assert ridx[i + 1] == j;
      }
    }
  }

  /** `WithoutIssue` keeps the order of what it keeps: its result is an ordered selection of the list. */
  lemma {:induction false} WithoutIssueKeepsOrder(list: seq<OutstandingIssue>, number: nat) returns (idx: seq<nat>)
    ensures OrderedSelection(list, number, WithoutIssue(list, number), idx)
  {
    if list == [] {
      idx := [];
    } else {
      var x, tail := list[0], list[1..];
      var rest := WithoutIssueKeepsOrder(tail, number);
      var r1 := WithoutIssue(tail, number);
      assert list == [x] + tail;
      if x.issue.number == number {
        assert WithoutIssue(list, number) == r1;
        SelectionSkipsHead(x, tail, number, r1, rest);
        idx := Shift(rest);
      } else {
        assert WithoutIssue(list, number) == [x] + r1;
        SelectionKeepsHead(x, tail, number, r1, rest);
        idx := [0] + Shift(rest);
      }
    }
  }

  /** The time the answered developer comment was made, when the entry and the comment are there. */
  function ResponseTime(p: Pending): Option<int> {
    match FindOutstanding(p.outstanding, p.number)
    case None => None
    case Some(i) =>
      match p.outstanding[i].lastDevComment
      case None => None
      case Some(c) => Some(c.createdAt)
  }

  /** The keys of the cache entries for issue `number`. */
  function MatchingKeys(cache: map<string, IssueCache>, number: nat): (r: set<string>)
    ensures r <= cache.Keys
    ensures forall k :: k in r <==> k in cache && cache[k].number == number
  {
    set k | k in cache && cache[k].number == number
  }

  /** The store after writing, for every key in `keys`, the captured entry stamped with `ms`. */
  function Overlay(store: map<string, IssueCache>, captured: map<string, IssueCache>, keys: set<string>, ms: int): (r: map<string, IssueCache>)
    requires keys <= captured.Keys
    ensures r.Keys == store.Keys + keys
    ensures forall k :: k in keys ==> r[k].lastCommentResponseMS == Some(ms)
    ensures forall k :: k in store && k !in keys ==> r[k] == store[k]
  {
    map k | k in store.Keys + keys :: if k in keys then captured[k].(lastCommentResponseMS := Some(ms)) else store[k]
  }

  /** Stamping one more key is one more map update. */
  lemma OverlayStep(store: map<string, IssueCache>, captured: map<string, IssueCache>, keys: set<string>, k: string, ms: int)
    requires keys <= captured.Keys && k in captured
    ensures Overlay(store, captured, keys + {k}, ms)
      == Overlay(store, captured, keys, ms)[k := captured[k].(lastCommentResponseMS := Some(ms))]
  {
  }

  /**
   * After a delivery the cache holds every captured entry of the answered
   * issue stamped with the comment time, and every other entry as it was.
   */
  lemma ResponseStampsMatchingEntries(store: map<string, IssueCache>, captured: map<string, IssueCache>, number: nat, ms: int)
    ensures var r := Overlay(store, captured, MatchingKeys(captured, number), ms);
      && (forall k :: k in r <==> k in store || (k in captured && captured[k].number == number))
      && (forall k :: k in captured && captured[k].number == number ==>
            r[k] == captured[k].(lastCommentResponseMS := Some(ms)))
      && (forall k :: k in store && !(k in captured && captured[k].number == number) ==> r[k] == store[k])
  {
  }

  /** When the cache did not change during delivery, only the answered issue's entries change, and only their response time. */
  lemma ResponseOnUnchangedCache(cache: map<string, IssueCache>, number: nat, ms: int)
    ensures var r := Overlay(cache, cache, MatchingKeys(cache, number), ms);
      && r.Keys == cache.Keys
      && forall k :: k in cache ==>
           && r[k].number == cache[k].number
           && r[k] == cache[k].(lastCommentResponseMS := r[k].lastCommentResponseMS)
           && r[k].lastCommentResponseMS == (if cache[k].number == number then Some(ms) else cache[k].lastCommentResponseMS)
  {
  }

  // ---------------------------------------------------------------------------
  // The dialog
  // ---------------------------------------------------------------------------

  /**
   * The dialog's state. `open`, `outstanding`, `issues` and `apiKey` are the
   * application state it reads and writes; `sending`, `feedbackMessage`,
   * `currentIssue` and the registry (`fileKeys` in key order over
   * `feedbackFiles`) are its own. `errors`, `notices` and `deletionRequests`
   * record the error notifications, success notices and temporary-file
   * deletions it issues; `pending` holds what the delivery callback captured.
   */
  class FeedbackResponderDialog {
    var open: bool
    var outstanding: seq<OutstandingIssue>
    var issues: map<string, IssueCache>
    var apiKey: Option<string>
    var sending: bool
    var feedbackMessage: string
    var currentIssue: Option<Issue>
    var fileKeys: seq<string>
    var feedbackFiles: map<string, FeedbackFile>
    var pending: Option<Pending>
    var errors: seq<ShownError>
    var notices: seq<string>
    var deletionRequests: seq<string>

    /** The registry is keyed by file name, within budget, and a pending delivery means sending. */
    ghost predicate Valid()
      reads this
    {
      && Distinct(fileKeys)
      && (forall k :: k in feedbackFiles <==> k in fileKeys)
      && (forall k :: k in feedbackFiles ==> feedbackFiles[k].filename == k)
      && SumSizes(fileKeys, feedbackFiles) <= MAX_ATTACHMENT_SIZE
      && (sending <==> pending.Some?)
      && (pending.Some? ==> AllRegistered(pending.value.fileKeys, pending.value.files))
    }

    /** No files, no message, no current issue. */
    predicate Cleared()
      reads this
    {
      fileKeys == [] && feedbackFiles == map[] && feedbackMessage == "" && currentIssue.None?
    }

    constructor (open: bool, outstanding: seq<OutstandingIssue>, issues: map<string, IssueCache>, apiKey: Option<string>)
      ensures Valid() && Cleared() && !sending
      ensures this.open == open && this.outstanding == outstanding && this.issues == issues && this.apiKey == apiKey
      ensures errors == [] && notices == [] && deletionRequests == []
    {
      this.open := open;
      this.outstanding := outstanding;
      this.issues := issues;
      this.apiKey := apiKey;
      sending := false;
      feedbackMessage := "";
      currentIssue := None;
      fileKeys := [];
      feedbackFiles := map[];
      pending := None;
      errors := [];
      notices := [];
      deletionRequests := [];
    }

    /** `addFeedbackFile`: register under the file name unless the combined size would exceed the budget. */
    method AddFeedbackFile(file: FeedbackFile)
      requires Valid()
      modifies this
      ensures Valid()
      ensures Admits(old(fileKeys), old(feedbackFiles), file) ==>
        && feedbackFiles == old(feedbackFiles)[file.filename := file]
        && fileKeys == AddKey(old(fileKeys), file.filename)
        && errors == old(errors)
      ensures !Admits(old(fileKeys), old(feedbackFiles), file) ==>
        && feedbackFiles == old(feedbackFiles) && fileKeys == old(fileKeys)
        && errors == old(errors) + [ShownError(TOO_BIG_TITLE, Message(TOO_BIG_DETAIL))]
      ensures unchanged(this`open, this`outstanding, this`issues, this`apiKey, this`sending, this`pending)
      ensures unchanged(this`feedbackMessage, this`currentIssue, this`notices, this`deletionRequests)
    {
      var size := SumSizes(fileKeys, feedbackFiles);
      if size + file.size > MAX_ATTACHMENT_SIZE {
        errors := errors + [ShownError(TOO_BIG_TITLE, Message(TOO_BIG_DETAIL))];
      } else {
        if file.filename in fileKeys {
          SumSizesReplace(fileKeys, feedbackFiles, file.filename, file);
        } else {
          SumSizesAdd(fileKeys, feedbackFiles, file.filename, file);
        }
        fileKeys := AddKey(fileKeys, file.filename);
        feedbackFiles := feedbackFiles[file.filename := file];
      }
    }

    /** `attachFile`: a file found on disk is registered under its base name; a missing or unreadable one adds nothing. */
    method AttachFile(filePath: string, fileType: Option<string>, stat: StatResult)
      requires Valid()
      modifies this
      ensures Valid()
      ensures stat.Found? && Admits(old(fileKeys), old(feedbackFiles), StatFile(filePath, fileType, stat.size)) ==>
        var f := StatFile(filePath, fileType, stat.size);
        && feedbackFiles == old(feedbackFiles)[f.filename := f]
        && fileKeys == AddKey(old(fileKeys), f.filename)
        && errors == old(errors)
      ensures stat.Found? && !Admits(old(fileKeys), old(feedbackFiles), StatFile(filePath, fileType, stat.size)) ==>
        && feedbackFiles == old(feedbackFiles) && fileKeys == old(fileKeys)
        && errors == old(errors) + [ShownError(TOO_BIG_TITLE, Message(TOO_BIG_DETAIL))]
      ensures !stat.Found? ==> unchanged(this)
      ensures unchanged(this`open, this`outstanding, this`issues, this`apiKey, this`sending, this`pending)
      ensures unchanged(this`feedbackMessage, this`currentIssue, this`notices, this`deletionRequests)
    {
      match stat {
        case Found(size) =>
          AddFeedbackFile(StatFile(filePath, fileType, size));
        case NotFound =>
        case StatFailed =>
      }
    }

    /** A state or action dump written to `tmpPath` is registered under its title, typed "State". */
    method AttachDump(title: string, tmpPath: string, size: nat)
      requires Valid()
      modifies this
      ensures Valid()
      ensures Admits(old(fileKeys), old(feedbackFiles), DumpFile(title, tmpPath, size)) ==>
        && feedbackFiles == old(feedbackFiles)[title := DumpFile(title, tmpPath, size)]
        && fileKeys == AddKey(old(fileKeys), title)
        && errors == old(errors)
      ensures !Admits(old(fileKeys), old(feedbackFiles), DumpFile(title, tmpPath, size)) ==>
        && feedbackFiles == old(feedbackFiles) && fileKeys == old(fileKeys)
        && errors == old(errors) + [ShownError(TOO_BIG_TITLE, Message(TOO_BIG_DETAIL))]
      ensures unchanged(this`open, this`outstanding, this`issues, this`apiKey, this`sending, this`pending)
      ensures unchanged(this`feedbackMessage, this`currentIssue, this`notices, this`deletionRequests)
    {
      AddFeedbackFile(DumpFile(title, tmpPath, size));
    }

    /** `remove`: drop the key at the position `indexOf` finds, through `splice`. */
    method Remove(id: string)
      requires Valid()
      modifies this
      ensures Valid()
      ensures fileKeys == RemainingKeys(old(fileKeys), id)
      ensures forall k :: k in feedbackFiles <==> k in fileKeys
      ensures forall k :: k in feedbackFiles ==> feedbackFiles[k] == old(feedbackFiles)[k]
      ensures unchanged(this`open, this`outstanding, this`issues, this`apiKey, this`sending, this`pending)
      ensures unchanged(this`feedbackMessage, this`currentIssue, this`errors, this`notices, this`deletionRequests)
    {
      var rest := SpliceOne(fileKeys, IndexOf(fileKeys, id));
      RemainingKeysSubset(fileKeys, id);
      RemoveShrinks(fileKeys, feedbackFiles, id);
      var kept := set k | k in rest;
      SumSizesRestrict(rest, feedbackFiles, kept);
      // the rebuild keeps every key left after the splice: keys never repeat
      feedbackFiles := map k | k in feedbackFiles.Keys * kept :: feedbackFiles[k];
      fileKeys := rest;
    }

    /** `handleChange`. */
    method SetMessage(message: string)
      modifies this
      ensures feedbackMessage == message
      ensures unchanged(this`open, this`outstanding, this`issues, this`apiKey, this`sending, this`pending)
      ensures unchanged(this`fileKeys, this`feedbackFiles, this`currentIssue, this`errors, this`notices, this`deletionRequests)
    {
      feedbackMessage := message;
    }

    /** `select`: switch to the outstanding issue whose rendered number is `issueNumber`, if there is one. */
    method Select(issueNumber: string)
      modifies this
      ensures FindByNumberText(old(outstanding), issueNumber).Some? ==>
        currentIssue == Some(old(outstanding)[FindByNumberText(old(outstanding), issueNumber).value].issue)
      ensures FindByNumberText(old(outstanding), issueNumber).None? ==> unchanged(this)
      ensures unchanged(this`open, this`outstanding, this`issues, this`apiKey, this`sending, this`pending)
      ensures unchanged(this`fileKeys, this`feedbackFiles, this`feedbackMessage, this`errors, this`notices, this`deletionRequests)
    {
      match FindByNumberText(outstanding, issueNumber) {
        case Some(i) => currentIssue := Some(outstanding[i].issue);
        case None =>
      }
    }

    /** A new outstanding list arrives; with no current issue the first entry becomes current. */
    method ReceiveOutstanding(list: seq<OutstandingIssue>)
      modifies this
      ensures outstanding == list
      ensures currentIssue == if old(currentIssue).None? && |list| > 0 then Some(list[0].issue) else old(currentIssue)
      ensures unchanged(this`open, this`issues, this`apiKey, this`sending, this`pending)
      ensures unchanged(this`fileKeys, this`feedbackFiles, this`feedbackMessage, this`errors, this`notices, this`deletionRequests)
    {
      outstanding := list;
      if currentIssue.None? && |list| > 0 {
        currentIssue := Some(list[0].issue);
      }
    }

    /** `close`. */
    method Close()
      modifies this
      ensures !open
      ensures unchanged(this`outstanding, this`issues, this`apiKey, this`sending, this`pending, this`currentIssue)
      ensures unchanged(this`fileKeys, this`feedbackFiles, this`feedbackMessage, this`errors, this`notices, this`deletionRequests)
    {
      open := false;
    }

    /** `clear`. */
    method Clear()
      requires Valid()
      modifies this
      ensures Valid() && Cleared()
      ensures unchanged(this`open, this`outstanding, this`issues, this`apiKey, this`sending, this`pending)
      ensures unchanged(this`errors, this`notices, this`deletionRequests)
    {
      fileKeys := [];
      feedbackFiles := map[];
      feedbackMessage := "";
      currentIssue := None;
    }

    /**
     * The first half of `doSubmitFeedback`: mark sending, collect the
     * attachment paths in key order and build the request.
     */
    method BeginSubmit(systemInfo: string) returns (request: SubmissionRequest)
      requires Valid() && currentIssue.Some? && !sending
      modifies this
      ensures Valid() && sending
      ensures pending == Some(Pending(old(currentIssue).value.number, old(fileKeys), old(feedbackFiles), old(outstanding), old(issues)))
      ensures request == SubmissionRequest(
        "Response to #" + DecimalString(old(currentIssue).value.number),
        systemInfo + "\n" + old(feedbackMessage),
        FilePaths(old(fileKeys), old(feedbackFiles)),
        apiKey.None?)
      ensures unchanged(this`open, this`outstanding, this`issues, this`apiKey, this`currentIssue)
      ensures unchanged(this`fileKeys, this`feedbackFiles, this`feedbackMessage, this`errors, this`notices, this`deletionRequests)
    {
      sending := true;
      var number := currentIssue.value.number;
      var files := CollectFilePaths(fileKeys, feedbackFiles);
      pending := Some(Pending(number, fileKeys, feedbackFiles, outstanding, issues));
      request := SubmissionRequest("Response to #" + DecimalString(number), systemInfo + "\n" + feedbackMessage, files, apiKey.None?);
    }

    /** Write, for every captured entry of issue `number`, that entry stamped with `ms`. */
    method StampResponded(captured: map<string, IssueCache>, number: nat, ms: int)
      modifies this`issues
      ensures issues == Overlay(old(issues), captured, MatchingKeys(captured, number), ms)
    {
      var matching := MatchingKeys(captured, number);
      var todo := matching;
      while todo != {}
        invariant todo <= matching
        invariant issues == Overlay(old(issues), captured, matching - todo, ms)
        decreases |todo|
      {
        var k :| k in todo;
        OverlayStep(old(issues), captured, matching - todo, k, ms);
        assert (matching - todo) + {k} == matching - (todo - {k});
        issues := issues[k := captured[k].(lastCommentResponseMS := Some(ms))];
        todo := todo - {k};
      }
      assert matching - todo == matching;
    }

    /**
     * The delivery callback: `outcome` is the delivery error, or None on success.
     * A failure is shown, then the dialog is cleared and closed. A success is
     * announced; when the answered entry and its comment are there, every
     * captured cache entry of the issue is stamped with the comment time, the
     * temporary files are queued for deletion, the issue leaves the outstanding
     * list (closing the dialog when that empties it) and the dialog is cleared.
     */
    method CompleteSubmit(outcome: Option<DeliveryError>)
      requires Valid() && sending
      modifies this
      ensures Valid() && !sending
      ensures unchanged(this`apiKey)
      ensures outcome.Some? ==>
        && errors == old(errors) + [ShownError(SEND_FAILED_TITLE, FailureDetail(outcome.value))]
        && Cleared() && !open
        && issues == old(issues) && outstanding == old(outstanding)
        && notices == old(notices) && deletionRequests == old(deletionRequests)
      ensures outcome.None? ==> notices == old(notices) + [SENT_NOTICE] && errors == old(errors)
      ensures outcome.None? && ResponseTime(old(pending).value).None? ==>
        && issues == old(issues) && outstanding == old(outstanding) && open == old(open)
        && deletionRequests == old(deletionRequests)
        && fileKeys == old(fileKeys) && feedbackFiles == old(feedbackFiles)
        && feedbackMessage == old(feedbackMessage) && currentIssue == old(currentIssue)
      ensures outcome.None? && ResponseTime(old(pending).value).Some? ==>
        var p := old(pending).value;
        && issues == Overlay(old(issues), p.issues, MatchingKeys(p.issues, p.number), ResponseTime(p).value)
        && deletionRequests == old(deletionRequests) + TempPaths(p.fileKeys, p.files)
        && outstanding == WithoutIssue(p.outstanding, p.number)
        && open == (old(open) && |outstanding| > 0)
        && Cleared()
    {
      var p := pending.value;
      sending := false;
      pending := None;
      match outcome {
        case Some(err) =>
          ReportFailure(err);
        case None =>
          notices := notices + [SENT_NOTICE];
          match ResponseTime(p) {
            case None =>
              // looking up the answered comment fails here and the callback stops
            case Some(ms) =>
              Reconcile(p, ms);
          }
      }
    }

    /** A failed delivery: show the error, clear and close. */
    method ReportFailure(err: DeliveryError)
      requires Valid()
      modifies this
      ensures Valid() && Cleared() && !open
      ensures errors == old(errors) + [ShownError(SEND_FAILED_TITLE, FailureDetail(err))]
      ensures unchanged(this`outstanding, this`issues, this`apiKey, this`sending, this`pending)
      ensures unchanged(this`notices, this`deletionRequests)
    {
      errors := errors + [ShownError(SEND_FAILED_TITLE, FailureDetail(err))];
      Clear();
      open := false;
    }

    /**
     * A delivered response to the comment made at `ms`: stamp the captured
     * entries of the issue, queue the temporary files for deletion, drop the
     * issue from the outstanding list (closing when that empties it) and clear.
     */
    method Reconcile(p: Pending, ms: int)
      requires Valid()
      modifies this
      ensures Valid() && Cleared()
      ensures issues == Overlay(old(issues), p.issues, MatchingKeys(p.issues, p.number), ms)
      ensures deletionRequests == old(deletionRequests) + TempPaths(p.fileKeys, p.files)
      ensures outstanding == WithoutIssue(p.outstanding, p.number)
      ensures open == (old(open) && |outstanding| > 0)
      ensures unchanged(this`apiKey, this`sending, this`pending, this`errors, this`notices)
    {
      StampResponded(p.issues, p.number, ms);
      deletionRequests := deletionRequests + TempPaths(p.fileKeys, p.files);
      var filteredOut := WithoutIssue(p.outstanding, p.number);
      outstanding := filteredOut;
      if |filteredOut| == 0 {
        open := false;
      }
      Clear();
    }
  }
}
