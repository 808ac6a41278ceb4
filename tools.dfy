/**
  The change-set pipeline of tools.ts: collect a diff per changed file
  (skipping the excluded names), render the diffs as one summary, ask the
  language model for a commit message and accept it only when the
  Conventional Commit parser finds a type and a subject.

  The collaborators are parameters: the repository that simple-git opens at
  a root directory, the text-completion call and the commit parser. Each of
  them may fail; a failure is carried as an error value instead of an
  exception.
 */
module Tools {
  import opened Text
  import Prompts

  datatype Option<T> = None | Some(value: T)

  datatype Result<T, E> = Ok(value: T) | Err(error: E)

  /** The ways the two tools can fail. An error thrown by a collaborator is
      kept as its message, tagged here by where it came from; the code itself
      neither wraps nor tags it and lets it propagate as thrown. */
  datatype Error =
    | SchemaError
    | GitError(message: string)
    | CompletionError(message: string)
    | ParserError(message: string)
    | InvalidCommitMessage(message: string)

  const InvalidCommitText: string := "Generated commit message is not a valid Conventional Commit"
  const NoChangesMessage: string := "chore: no changes detected."
  const ModelName: string := "models/gemini-2.5-flash"
  const CommitSystemInstruction: string := "You are a professional engineer. Only output a Conventional Commit message."

  /** File names the collector skips. Matching is exact string equality. */
  const ExcludeFiles: seq<string> := ["dist", "bun.lock"]

  /** One entry of the collected change set. */
  datatype FileDiff = FileDiff(file: string, diff: string)

  /** The repository simple-git opens at a root directory: the changed files
      its diff summary lists (or the message of the error it throws) and, for
      each file name, the diff text of that file (or an error message). */
  datatype Repository = Repository(
    changedFiles: Result<seq<string>, string>,
    diff: string -> Result<string, string>)

  /** The calls the collector makes on the repository, in order. */
  datatype GitCall = ListChanges | FetchDiff(file: string)

  /** One request to the text-completion service. */
  datatype CompletionRequest = CompletionRequest(model: string, system: string, prompt: string)

  /** The fields of a parsed commit message that the pipeline looks at;
      None is a field the parser did not find. */
  datatype Commit = Commit(commitType: Option<string>, subject: Option<string>)

  // ---------------------------------------------------------------------
  // Exclusion filter
  // ---------------------------------------------------------------------

  /** Array.prototype.includes on the exclusion list: whole-name equality
      with one of the two names, never a prefix or a pattern. */
  predicate IsExcluded(file: string)
    ensures IsExcluded(file) <==> file == "dist" || file == "bun.lock"
  {
    file in ExcludeFiles
  }

  /** The listed files the collector keeps, in listing order. */
  function Retained(files: seq<string>): (r: seq<string>)
    ensures |r| <= |files|
    ensures forall k :: 0 <= k < |r| ==> !IsExcluded(r[k])
  {
    if files == [] then []
    else (if IsExcluded(files[0]) then [] else [files[0]]) + Retained(files[1..])
  }

  /** Filtering distributes over concatenation: together with the one-file
      case this pins the filter down and says it keeps the listing order. */
  lemma {:induction false} RetainedAppend(a: seq<string>, b: seq<string>)
    ensures Retained(a + b) == Retained(a) + Retained(b)
  {
    if a == [] {
      assert a + b == b;
    } else {
      assert (a + b)[1..] == a[1..] + b;
      RetainedAppend(a[1..], b);
    }
  }

  /** A name is kept exactly when it is listed and is not an excluded name. */
  lemma {:induction false} RetainedMembers(files: seq<string>, f: string)
    ensures f in Retained(files) <==> f in files && !IsExcluded(f)
  {
    if files != [] {
      RetainedMembers(files[1..], f);
      assert files == [files[0]] + files[1..];
    }
  }

  /** The kept list is as long as the listing less its excluded entries. */
  lemma {:induction false} RetainedLength(files: seq<string>)
    ensures |Retained(files)| == |files| - multiset(files)["dist"] - multiset(files)["bun.lock"]
  {
    if files != [] {
      RetainedLength(files[1..]);
      assert files == [files[0]] + files[1..];
      assert multiset(files) == multiset{files[0]} + multiset(files[1..]);
    }
  }

  /** Filtering an already filtered list changes nothing. */
  lemma {:induction false} RetainedIdempotent(files: seq<string>)
    ensures Retained(Retained(files)) == Retained(files)
  {
    if files != [] {
      var head := if IsExcluded(files[0]) then [] else [files[0]];
      RetainedAppend(head, Retained(files[1..]));
      RetainedIdempotent(files[1..]);
    }
  }

  /** Listing an excluded name anywhere leaves the kept list unchanged. */
  lemma ExcludedInsertionIgnored(a: seq<string>, x: string, b: seq<string>)
    requires IsExcluded(x)
    ensures Retained(a + [x] + b) == Retained(a + b)
  {
    RetainedAppend(a + [x], b);
    RetainedAppend(a, [x]);
    RetainedAppend(a, b);
  }

  /** Exclusion is not a prefix match: every path under dist/ is kept. */
  lemma DistDirectoryKept(rest: string)
    ensures !IsExcluded("dist/" + rest)
    ensures Retained(["dist/" + rest]) == ["dist/" + rest]
  {
    var path := "dist/" + rest;
    assert path[0] == 'd' && |path| >= 5;
    assert "bun.lock"[0] == 'b';
  }

  // ---------------------------------------------------------------------
  // Change collector
  // ---------------------------------------------------------------------

  /** ds followed by the entries of r, or r's error. */
  function Prepend(ds: seq<FileDiff>, r: Result<seq<FileDiff>, Error>): Result<seq<FileDiff>, Error> {
    match r
    case Ok(rest) => Ok(ds + rest)
    case Err(e) => Err(e)
  }

  /** The change set collected from a file listing: one entry per kept
      file, with the diff fetched for it, or the error of the first fetch
      that fails. */
  function Collected(files: seq<string>, diff: string -> Result<string, string>): (r: Result<seq<FileDiff>, Error>)
    ensures r.Err? ==> r.error.GitError?
  {
    if files == [] then Ok([])
    else if IsExcluded(files[0]) then Collected(files[1..], diff)
    else match diff(files[0])
      case Err(m) => Err(GitError(m))
      case Ok(d) => Prepend([FileDiff(files[0], d)], Collected(files[1..], diff))
  }

  /** The file names passed to git.diff, in call order: the kept files up to
      and including the first one whose fetch fails. They are a prefix of
      the kept files, so never an excluded name and never out of order. */
  function DiffCalls(files: seq<string>, diff: string -> Result<string, string>): (calls: seq<string>)
    ensures calls <= Retained(files)
    ensures forall k :: 0 <= k < |calls| ==> !IsExcluded(calls[k])
  {
    if files == [] then []
    else if IsExcluded(files[0]) then DiffCalls(files[1..], diff)
    else if diff(files[0]).Err? then [files[0]]
    else [files[0]] + DiffCalls(files[1..], diff)
  }

  function FetchDiffs(files: seq<string>): (calls: seq<GitCall>)
    ensures |calls| == |files|
    ensures forall k :: 0 <= k < |files| ==> calls[k] == FetchDiff(files[k])
  {
    if files == [] then [] else [FetchDiff(files[0])] + FetchDiffs(files[1..])
  }

  /** What the collector returns for a repository: a change set only from a
      successful listing, and otherwise a git error. */
  function RepositoryChanges(repo: Repository): (r: Result<seq<FileDiff>, Error>)
    ensures r.Ok? ==> repo.changedFiles.Ok?
    ensures r.Err? ==> r.error.GitError?
  {
    match repo.changedFiles
    case Err(m) => Err(GitError(m))
    case Ok(files) => Collected(files, repo.diff)
  }

  /** The calls the collector makes on a repository: one listing, then one
      diff per file in DiffCalls; no call fetches an excluded name. */
  function RepositoryCalls(repo: Repository): (calls: seq<GitCall>)
    ensures |calls| >= 1 && calls[0] == ListChanges
    ensures forall k :: 1 <= k < |calls| ==> calls[k].FetchDiff? && !IsExcluded(calls[k].file)
    ensures repo.changedFiles.Ok? ==> |calls| <= 1 + |Retained(repo.changedFiles.value)|
  {
    match repo.changedFiles
    case Err(_) => [ListChanges]
    case Ok(files) => [ListChanges] + FetchDiffs(DiffCalls(files, repo.diff))
  }

  /** getFileChangesInDirectory: list the changed files, skip the excluded
      names, fetch and record the diff of every other file in order, and
      stop at the first failure. Also returns the calls made on the
      repository. */
  method GetFileChangesInDirectory(rootDir: string, open: string -> Repository)
    returns (diffs: Result<seq<FileDiff>, Error>, calls: seq<GitCall>)
    ensures diffs == RepositoryChanges(open(rootDir))
    ensures calls == RepositoryCalls(open(rootDir))
  {
    var git := open(rootDir);
    if git.changedFiles.Err? {
      return Err(GitError(git.changedFiles.error)), [ListChanges];
    }
    var files := git.changedFiles.value;
    var collected: seq<FileDiff> := [];
    var fetched: seq<string> := [];
    CollectStart(files, git.diff);
    for i := 0 to |files|
      invariant Collected(files, git.diff) == Prepend(collected, Collected(files[i..], git.diff))
      invariant DiffCalls(files, git.diff) == fetched + DiffCalls(files[i..], git.diff)
    {
      var file := files[i];
      CollectStep(files, i, git.diff);
      if file in ExcludeFiles {
        continue;
      }
      var d := git.diff(file);
      fetched := fetched + [file];
      if d.Err? {
        return Err(GitError(d.error)), [ListChanges] + FetchDiffs(fetched);
      }
      PrependTwice(collected, [FileDiff(file, d.value)], Collected(files[i + 1..], git.diff));
      collected := collected + [FileDiff(file, d.value)];
    }
    assert files[|files|..] == [] && collected + [] == collected;
    diffs, calls := Ok(collected), [ListChanges] + FetchDiffs(fetched);
  }

  /** The collection seen from the start of the listing. */
  lemma CollectStart(files: seq<string>, diff: string -> Result<string, string>)
    ensures Collected(files, diff) == Prepend([], Collected(files[0..], diff))
    ensures DiffCalls(files, diff) == [] + DiffCalls(files[0..], diff)
  {
    assert files[0..] == files;
    if Collected(files, diff).Ok? {
      assert [] + Collected(files, diff).value == Collected(files, diff).value;
    }
  }

  /** One step of the collection, seen from position i of the listing. */
  lemma CollectStep(files: seq<string>, i: nat, diff: string -> Result<string, string>)
    requires i < |files|
    ensures Collected(files[i..], diff) ==
      if IsExcluded(files[i]) then Collected(files[i + 1..], diff)
      else match diff(files[i])
        case Err(m) => Err(GitError(m))
        case Ok(d) => Prepend([FileDiff(files[i], d)], Collected(files[i + 1..], diff))
    ensures DiffCalls(files[i..], diff) ==
      if IsExcluded(files[i]) then DiffCalls(files[i + 1..], diff)
      else if diff(files[i]).Err? then [files[i]]
      else [files[i]] + DiffCalls(files[i + 1..], diff)
  {
  }

  lemma PrependTwice(a: seq<FileDiff>, b: seq<FileDiff>, r: Result<seq<FileDiff>, Error>)
    ensures Prepend(a, Prepend(b, r)) == Prepend(a + b, r)
  {
    if r.Ok? {
      assert a + (b + r.value) == (a + b) + r.value;
    }
  }

  /** A successful collection holds exactly the kept files, in order, each
      with the diff fetched for that same file. */
  lemma {:induction false} CollectedEntries(files: seq<string>, diff: string -> Result<string, string>)
    requires Collected(files, diff).Ok?
    ensures |Collected(files, diff).value| == |Retained(files)|
    ensures forall k :: 0 <= k < |Retained(files)| ==>
      && Collected(files, diff).value[k].file == Retained(files)[k]
      && diff(Retained(files)[k]) == Ok(Collected(files, diff).value[k].diff)
  {
    if files != [] {
      CollectedEntries(files[1..], diff);
    }
  }

  /** The collection fails exactly when the fetch of some kept file fails. */
  lemma {:induction false} CollectedFailsIff(files: seq<string>, diff: string -> Result<string, string>)
    ensures Collected(files, diff).Err? <==> exists f :: f in Retained(files) && diff(f).Err?
  {
    if files != [] {
      CollectedFailsIff(files[1..], diff);
      assert Retained(files) == (if IsExcluded(files[0]) then [] else [files[0]]) + Retained(files[1..]);
    }
  }

  /** When the collection succeeds, every kept file is fetched once. */
  lemma {:induction false} DiffCallsOnSuccess(files: seq<string>, diff: string -> Result<string, string>)
    requires Collected(files, diff).Ok?
    ensures DiffCalls(files, diff) == Retained(files)
  {
    if files != [] {
      DiffCallsOnSuccess(files[1..], diff);
    }
  }

  /** Fail fast: when the collection fails, the last fetch is the one that
      failed, its message is the error returned, and every fetch before it
      succeeded. */
  lemma {:induction false} DiffCallsOnFailure(files: seq<string>, diff: string -> Result<string, string>)
    requires Collected(files, diff).Err?
    ensures var calls := DiffCalls(files, diff);
      && calls != []
      && diff(calls[|calls| - 1]) == Err(Collected(files, diff).error.message)
      && forall k :: 0 <= k < |calls| - 1 ==> diff(calls[k]).Ok?
  {
    if !IsExcluded(files[0]) && diff(files[0]).Ok? {
      DiffCallsOnFailure(files[1..], diff);
    } else if IsExcluded(files[0]) {
      DiffCallsOnFailure(files[1..], diff);
    }
  }

  /** The collection depends only on the kept files. */
  lemma {:induction false} CollectedOnlyRetained(files: seq<string>, diff: string -> Result<string, string>)
    ensures Collected(Retained(files), diff) == Collected(files, diff)
  {
    if files != [] {
      CollectedOnlyRetained(files[1..], diff);
      if IsExcluded(files[0]) {
        assert Retained(files) == Retained(files[1..]);
      } else {
        assert Retained(files) == [files[0]] + Retained(files[1..]);
        assert Retained(files)[1..] == Retained(files[1..]);
      }
    }
  }

  /** The collector's output is unchanged when the input is filtered first
      or when an excluded name is inserted anywhere into the listing. */
  lemma CollectorIdempotent(a: seq<string>, x: string, b: seq<string>, diff: string -> Result<string, string>)
    requires IsExcluded(x)
    ensures Collected(Retained(a + b), diff) == Collected(a + b, diff)
    ensures Collected(a + [x] + b, diff) == Collected(a + b, diff)
  {
    CollectedOnlyRetained(a + b, diff);
    CollectedOnlyRetained(a + [x] + b, diff);
    ExcludedInsertionIgnored(a, x, b);
  }

  /** No excluded name is ever fetched: diff texts for excluded names have
      no effect on the collection. */
  lemma {:induction false} CollectedIgnoresExcludedDiffs(files: seq<string>, d1: string -> Result<string, string>, d2: string -> Result<string, string>)
    requires forall f :: !IsExcluded(f) ==> d1(f) == d2(f)
    ensures Collected(files, d1) == Collected(files, d2)
    ensures DiffCalls(files, d1) == DiffCalls(files, d2)
  {
    if files != [] {
      CollectedIgnoresExcludedDiffs(files[1..], d1, d2);
    }
  }

  /** A successful collection makes one listing call and one diff call per
      kept file: N + 1 calls for N kept files. */
  lemma CollectorCallCount(repo: Repository)
    requires RepositoryChanges(repo).Ok?
    ensures |RepositoryCalls(repo)| == 1 + |RepositoryChanges(repo).value|
  {
    DiffCallsOnSuccess(repo.changedFiles.value, repo.diff);
    CollectedEntries(repo.changedFiles.value, repo.diff);
  }

  /** Three files listed and the second fetch fails: the error of that fetch
      is returned and the third file is never fetched. */
  lemma SecondFetchFails(a: string, b: string, c: string, diff: string -> Result<string, string>)
    requires !IsExcluded(a) && !IsExcluded(b)
    requires diff(a).Ok? && diff(b) == Err("fatal: bad object")
    ensures Collected([a, b, c], diff) == Err(GitError("fatal: bad object"))
    ensures DiffCalls([a, b, c], diff) == [a, b]
  {
  }

  // ---------------------------------------------------------------------
  // Summary
  // ---------------------------------------------------------------------

  /** The summary text of one entry; note the space after the file name. */
  function Block(d: FileDiff): (b: string)
    ensures 6 <= |b| && b[..6] == "File: "
  {
    "File: " + d.file + " \nChanges: " + d.diff
  }

  function Blocks(ds: seq<FileDiff>): (bs: seq<string>)
    ensures |bs| == |ds|
    ensures forall k :: 0 <= k < |ds| ==> bs[k] == Block(ds[k])
  {
    if ds == [] then [] else [Block(ds[0])] + Blocks(ds[1..])
  }

  /** The change summary: the entries' blocks joined by a blank line. It is
      empty exactly when there are no entries, and otherwise starts with
      the first entry's block. */
  function Summary(ds: seq<FileDiff>): (s: string)
    ensures s == [] <==> ds == []
    ensures ds != [] ==> |Block(ds[0])| <= |s| && s[..|Block(ds[0])|] == Block(ds[0])
  {
    Join(Blocks(ds), "\n\n")
  }

  /** The summary of two change sets one after the other is their summaries
      separated by a blank line. */
  lemma SummaryAppend(a: seq<FileDiff>, b: seq<FileDiff>)
    requires a != [] && b != []
    ensures Summary(a + b) == Summary(a) + "\n\n" + Summary(b)
  {
    assert Blocks(a + b) == Blocks(a) + Blocks(b);
    JoinAppend(Blocks(a), Blocks(b), "\n\n");
  }

  /** The summary is not injective: an entry whose diff ends with a blank
      line and a second entry's block reads the same as the two entries. */
  lemma SummaryNotInjective(a: FileDiff, b: FileDiff)
    ensures Summary([FileDiff(a.file, a.diff + "\n\n" + Block(b))]) == Summary([a, b])
  {
  }

  // ---------------------------------------------------------------------
  // Commit message
  // ---------------------------------------------------------------------

  /** The parser reports a non-empty type and a non-empty subject (the
      truthiness test of tools.ts: a missing or empty field fails). */
  predicate HasTypeAndSubject(c: Commit) {
    && c.commitType.Some? && c.commitType.value != ""
    && c.subject.Some? && c.subject.value != ""
  }

  /** The parser neither throws on m nor misses its type or subject. */
  predicate Accepts(parse: string -> Result<Commit, string>, m: string) {
    parse(m).Ok? && HasTypeAndSubject(parse(m).value)
  }

  /** The single completion request made for a summary. */
  function CommitRequest(changesSummary: string): CompletionRequest {
    CompletionRequest(ModelName, CommitSystemInstruction, Prompts.CommitMessagePrompt(changesSummary))
  }

  /** Two commit requests are equal exactly when their summaries are: the
      request carries the whole summary. */
  lemma CommitRequestInjective(s1: string, s2: string)
    ensures CommitRequest(s1) == CommitRequest(s2) <==> s1 == s2
  {
    if CommitRequest(s1) == CommitRequest(s2) {
      Prompts.CommitMessagePromptInjective(s1, s2);
    }
  }

  /** generateCommitMessage: the fixed message when nothing changed;
      otherwise the trimmed completion when the parser finds a type and a
      subject, and an error when it does not. Errors of the collector, of
      the completion call and of the parser propagate. Every message
      returned neither starts nor ends with white space and is either the
      fixed message or one the parser accepts; no schema error arises
      inside. */
  function GenerateCommitMessage(
    rootDir: string, open: string -> Repository,
    complete: CompletionRequest -> Result<string, string>,
    parse: string -> Result<Commit, string>): (r: Result<string, Error>)
    ensures r.Ok? ==> IsTrimmed(r.value) && Trim(r.value) == r.value
    ensures r.Ok? ==> r.value == NoChangesMessage || Accepts(parse, r.value)
    ensures r != Err(SchemaError)
  {
    match RepositoryChanges(open(rootDir))
    case Err(e) => Err(e)
    case Ok(diffs) =>
      if |diffs| == 0 then
        assert NoChangesMessage[0] == 'c';
        TrimOfTrimmed(NoChangesMessage);
        Ok(NoChangesMessage)
      else
        match complete(CommitRequest(Summary(diffs)))
        case Err(m) => Err(CompletionError(m))
        case Ok(text) =>
          var rawMessage := Trim(text);
          TrimIdempotent(text);
          match parse(rawMessage)
          case Err(m) => Err(ParserError(m))
          case Ok(parsed) =>
            if !HasTypeAndSubject(parsed) then Err(InvalidCommitMessage(InvalidCommitText))
            else Ok(rawMessage)
  }

  /** With no changes the result is the fixed message, whatever the
      completion service and the parser would do: no completion call is made. */
  lemma NoChangesSkipsCompletion(
    rootDir: string, open: string -> Repository,
    c1: CompletionRequest -> Result<string, string>, c2: CompletionRequest -> Result<string, string>,
    p1: string -> Result<Commit, string>, p2: string -> Result<Commit, string>)
    requires RepositoryChanges(open(rootDir)) == Ok([])
    ensures GenerateCommitMessage(rootDir, open, c1, p1) == Ok(NoChangesMessage)
    ensures GenerateCommitMessage(rootDir, open, c2, p2) == Ok(NoChangesMessage)
  {
  }

  /** Fail fast on the collector: when the collection fails, its error is
      the result, whatever the completion service and the parser would do,
      so neither is consulted and no message is produced. */
  lemma CollectorErrorPropagates(
    rootDir: string, open: string -> Repository,
    complete: CompletionRequest -> Result<string, string>,
    parse: string -> Result<Commit, string>)
    requires RepositoryChanges(open(rootDir)).Err?
    ensures GenerateCommitMessage(rootDir, open, complete, parse) == Err(RepositoryChanges(open(rootDir)).error)
    ensures GenerateCommitMessage(rootDir, open, complete, parse).error.GitError?
  {
  }

  /** When there are changes and the completion call for their summary
      fails, its error is the result, whatever the parser would do. */
  lemma CompletionErrorPropagates(
    rootDir: string, open: string -> Repository,
    complete: CompletionRequest -> Result<string, string>,
    parse: string -> Result<Commit, string>, m: string)
    requires RepositoryChanges(open(rootDir)).Ok? && RepositoryChanges(open(rootDir)).value != []
    requires complete(CommitRequest(Summary(RepositoryChanges(open(rootDir)).value))) == Err(m)
    ensures GenerateCommitMessage(rootDir, open, complete, parse) == Err(CompletionError(m))
  {
  }

  /** With changes, the completion service is asked once, with the commit
      request for the summary of the collected diffs: two services that give
      the same answer to that request give the same result. */
  lemma OnlyCommitRequestMatters(
    rootDir: string, open: string -> Repository,
    c1: CompletionRequest -> Result<string, string>, c2: CompletionRequest -> Result<string, string>,
    parse: string -> Result<Commit, string>)
    requires RepositoryChanges(open(rootDir)).Ok? && RepositoryChanges(open(rootDir)).value != []
    requires c1(CommitRequest(Summary(RepositoryChanges(open(rootDir)).value)))
          == c2(CommitRequest(Summary(RepositoryChanges(open(rootDir)).value)))
    ensures GenerateCommitMessage(rootDir, open, c1, parse) == GenerateCommitMessage(rootDir, open, c2, parse)
  {
  }

  /** On the model path the result is the trimmed completion, returned
      exactly when the parser finds a type and a subject in it; otherwise it
      is the parser's own error when the parser throws, and the fixed
      invalid-message error when a field is missing or empty. */
  lemma ModelPathOutcome(
    rootDir: string, open: string -> Repository,
    complete: CompletionRequest -> Result<string, string>,
    parse: string -> Result<Commit, string>, text: string)
    requires RepositoryChanges(open(rootDir)).Ok? && RepositoryChanges(open(rootDir)).value != []
    requires complete(CommitRequest(Summary(RepositoryChanges(open(rootDir)).value))) == Ok(text)
    ensures var r := GenerateCommitMessage(rootDir, open, complete, parse);
      && (r.Ok? <==> Accepts(parse, Trim(text)))
      && (r.Ok? ==> r.value == Trim(text))
      && (parse(Trim(text)).Err? ==> r == Err(ParserError(parse(Trim(text)).error)))
      && (parse(Trim(text)).Ok? && r.Err? ==> r.error == InvalidCommitMessage(InvalidCommitText))
  {
  }

  /** A reply of white space alone trims to the empty text; if the parser
      throws on empty text, that error is the result, so no empty message
      is ever returned. */
  lemma BlankReplyRejected(
    rootDir: string, open: string -> Repository,
    complete: CompletionRequest -> Result<string, string>,
    parse: string -> Result<Commit, string>, text: string)
    requires RepositoryChanges(open(rootDir)).Ok? && RepositoryChanges(open(rootDir)).value != []
    requires complete(CommitRequest(Summary(RepositoryChanges(open(rootDir)).value))) == Ok(text)
    requires forall k :: 0 <= k < |text| ==> IsWhiteSpace(text[k])
    requires parse("").Err?
    ensures GenerateCommitMessage(rootDir, open, complete, parse) == Err(ParserError(parse("").error))
  {
    TrimEmptyIff(text);
  }

  /** The subject-line limit is not enforced: a subject of any length that
      the parser reports is accepted, also one longer than the limit. */
  lemma SubjectLimitNotEnforced(
    rootDir: string, open: string -> Repository,
    complete: CompletionRequest -> Result<string, string>,
    parse: string -> Result<Commit, string>, text: string, subject: string)
    requires RepositoryChanges(open(rootDir)).Ok? && RepositoryChanges(open(rootDir)).value != []
    requires complete(CommitRequest(Summary(RepositoryChanges(open(rootDir)).value))) == Ok(text)
    requires parse(Trim(text)) == Ok(Commit(Some("feat"), Some(subject)))
    requires |subject| > Prompts.SubjectLimit
    ensures GenerateCommitMessage(rootDir, open, complete, parse) == Ok(Trim(text))
  {
  }

  /** One changed file README.md with diff "+hello", and a completion
      "docs: update readme\n" that the parser accepts once trimmed. */
  lemma ReadmeExample(
    open: string -> Repository,
    complete: CompletionRequest -> Result<string, string>,
    parse: string -> Result<Commit, string>)
    requires open("repo").changedFiles == Ok(["README.md"])
    requires open("repo").diff("README.md") == Ok("+hello")
    requires forall req :: complete(req) == Ok("docs: update readme\n")
    requires Accepts(parse, "docs: update readme")
    ensures Summary([FileDiff("README.md", "+hello")]) == "File: README.md \nChanges: +hello"
    ensures GenerateCommitMessage("repo", open, complete, parse) == Ok("docs: update readme")
  {
    var diffs := [FileDiff("README.md", "+hello")];
    assert !IsExcluded("README.md") by {
      assert |"README.md"| == 9 && |"dist"| == 4 && |"bun.lock"| == 8;
    }
    assert RepositoryChanges(open("repo")) == Ok(diffs) by {
      assert ["README.md"][1..] == [];
      assert diffs + [] == diffs;
    }
    var text := "docs: update readme\n";
    assert complete(CommitRequest(Summary(diffs))) == Ok(text);
    ReadmeTrim();
    ReadmeSummary();
  }

  lemma ReadmeSummary()
    ensures Summary([FileDiff("README.md", "+hello")]) == "File: README.md \nChanges: +hello"
  {
    assert Blocks([FileDiff("README.md", "+hello")]) == [Block(FileDiff("README.md", "+hello"))];
  }

  lemma ReadmeTrim()
    ensures Trim("docs: update readme\n") == "docs: update readme"
  {
    var text := "docs: update readme\n";
    assert text[..|text| - 1] == "docs: update readme";
    assert TrailingWhite(text[..|text| - 1]) == 0;
    assert TrailingWhite(text) == 1;
    assert LeadingWhite(text) == 0;
  }

  // ---------------------------------------------------------------------
  // Tool adapters
  // ---------------------------------------------------------------------

  /** The change tool: a root directory that is the empty string is rejected
      by the input schema before any call on the repository. */
  method GetFileChangesTool(rootDir: string, open: string -> Repository)
    returns (diffs: Result<seq<FileDiff>, Error>, calls: seq<GitCall>)
    ensures rootDir == [] ==> diffs == Err(SchemaError) && calls == []
    ensures rootDir != [] ==> diffs == RepositoryChanges(open(rootDir)) && calls == RepositoryCalls(open(rootDir))
  {
    if |rootDir| < 1 {
      return Err(SchemaError), [];
    }
    diffs, calls := GetFileChangesInDirectory(rootDir, open);
  }

  /** The commit tool: the schema error arises exactly for an empty root
      directory; any other input gets generateCommitMessage's result. */
  function GenerateCommitMessageTool(
    rootDir: string, open: string -> Repository,
    complete: CompletionRequest -> Result<string, string>,
    parse: string -> Result<Commit, string>): (r: Result<string, Error>)
    ensures r == Err(SchemaError) <==> rootDir == []
    ensures rootDir != [] ==> r == GenerateCommitMessage(rootDir, open, complete, parse)
  {
    if |rootDir| < 1 then Err(SchemaError)
    else GenerateCommitMessage(rootDir, open, complete, parse)
  }
}
