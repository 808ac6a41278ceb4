# Commit-message pipeline: a Dafny model

This project models the change-set pipeline of a small code-review agent.
The agent has two tools.

- **Change collector** (`getFileChangesInDirectory`). It asks git for the list of changed files. It skips any file whose name is exactly `dist` or `bun.lock`. For every other file, in listing order, it fetches that file's diff and records `{file, diff}`. A failing git call aborts the whole collection.
- **Commit-message generator** (`generateCommitMessage`). It runs the collector. If nothing is collected, it returns the fixed message `chore: no changes detected.`. Otherwise it does the following:
  - renders the diffs as a summary: one `File: <file> \nChanges: <diff>` block per entry, joined by a blank line;
  - wraps the summary in the commit-message prompt;
  - sends that prompt to the language model;
  - trims the model's reply;
  - returns the trimmed reply only when the Conventional Commit parser finds a non-empty type and a non-empty subject in it, and throws otherwise.

Beside the two tools, the project models the following:

- the prompt template, in `prompts.dfy`;
- `String.prototype.trim` and `Array.prototype.join`, the two JavaScript built-ins the model spells out, in `text.dfy` (the others the pipeline uses, `map`, `includes` and `push`, appear directly in the model's definitions);
- the two tool adapters, which reject an empty `rootDir` before any I/O.

Each collaborator becomes a parameter:

- **Repository**: the repository that simple-git opens at a root directory, given as `open: string -> Repository`. A `Repository` is the outcome of the diff-summary listing plus a function from file name to diff outcome.
- **Completion service**: a function from a `CompletionRequest` (model, system instruction, prompt) to the reply text or an error message.
- **Commit parser**: a function from text to either the parsed `type` and `subject` (either field may be missing) or the message of the error the parser throws.

An error that a collaborator throws is carried as its message, tagged by where it came from (`GitError`, `CompletionError`, `ParserError`). The code itself neither wraps nor tags it; the tag only records which call failed.

The collector is an imperative method with a `for` loop and `continue`, as in the source. It is proved against the specification functions `Collected` and `DiffCalls`. It also returns the calls it makes on the repository, so the lemmas can speak about which diffs are fetched and in what order. The summary, the prompt and the generator are functions.

A few points of the code's behaviour are easy to miss, and the model follows the code in each:

- **Exact-name exclusion.** Exclusion compares whole names (`Array.prototype.includes`). So `dist/bundle.js` and every other file under a `dist` directory is kept (`Tools.DistDirectoryKept`). Also, only `bun.lock` is excluded, not lock files in general.
- **Space in the block header.** Each summary block has a space after the file name before the line break (`File: README.md \nChanges: ...`).
- **The summary is not always splittable.** Blocks are joined by a blank line, and a diff may itself contain a blank line followed by text that looks like a block. So two different change sets can give the same summary, and the summary cannot in general be split back into its entries (`Tools.SummaryNotInjective`).
- **No error kinds.** The code defines none. Git, model and parser errors propagate as thrown, without being tagged with the file that failed. The only error the code makes itself is the `Error("Generated commit message is not a valid Conventional Commit")` at tools.ts:57.
- **Line endings in the prompt.** prompts.ts is stored with CR LF line endings. A JavaScript template literal normalises each CR LF to LF, so every line break of the prompt is modelled as `"\n"`.

## Model

| member | source | states |
|---|---|---|
| `Text.IsWhiteSpace` | tools.ts:50 | the characters trim strips: the ECMAScript white-space and line-terminator code points, with the Unicode 15 space separators |
| `Text.WhiteSpaceBoundary` | tools.ts:50 | space, line feed, the byte-order mark and the line separator are stripped; the zero-width space, NEXT LINE and the Mongolian vowel separator are not |
| `Text.LeadingWhite` | tools.ts:50 | the count of white-space characters at the start: all of them are white space and the next character, if any, is not |
| `Text.TrailingWhite` | tools.ts:50 | the count of white-space characters at the end: all of them are white space and the character before them, if any, is not |
| `Text.Trim` | tools.ts:50 | the trimmed text is the slice of the input after its leading white space; every character outside the slice is ECMAScript white space or a line terminator; the slice neither starts nor ends with one |
| `Text.TrimOfTrimmed` | tools.ts:50 | a text with no white space at either end is returned unchanged by trim |
| `Text.TrimIdempotent` | tools.ts:50 | trimming the returned message again changes nothing |
| `Text.TrimEmptyIff` | tools.ts:50 | a reply trims to the empty string exactly when it is white space alone |
| `Text.Join` | tools.ts:41 | `join` of no parts is empty; of one part, that part; otherwise it starts with the first part |
| `Text.JoinAppend` | tools.ts:41 | joining two non-empty lists equals their joins glued by one more separator |
| `Prompts.CommitPromptPrefix` | prompts.ts:45-49 | the fixed instruction before the summary: a leading line break, the engineer sentence, the Conventional Commit line with its trailing space, the `(type(scope): description).` line and `Here are the changes:`, each ended by a line break |
| `Prompts.CommitMessagePrompt` | prompts.ts:45-51 | the prompt is the fixed prefix, then the summary verbatim, then one line break, and its length is the prefix length plus the summary length plus one |
| `Prompts.PrefixShape` | prompts.ts:45-49 | the fixed prefix is 147 characters; it ends with a line break, so the summary starts on its own line |
| `Prompts.CommitMessagePromptInjective` | prompts.ts:45-51 | distinct summaries give distinct prompts |
| `Prompts.CommitMessagePromptVariesOnlyInSummary` | prompts.ts:46-50 | any two prompts share the prefix and the final line break and differ only in the embedded summary |
| `Tools.IsExcluded` | tools.ts:26 | a name is excluded exactly when it equals `dist` or `bun.lock` |
| `Tools.Retained` | tools.ts:25-29 | the kept file list is never longer than the listing and contains no excluded name |
| `Tools.RetainedAppend` | tools.ts:25-29 | filtering distributes over concatenation, so the kept files stay in listing order |
| `Tools.RetainedMembers` | tools.ts:25-29 | a name is kept exactly when it is listed and is not `dist` or `bun.lock` |
| `Tools.RetainedLength` | tools.ts:25-29 | the number of kept files is the listing length less the occurrences of the two excluded names |
| `Tools.RetainedIdempotent` | tools.ts:26 | filtering an already filtered list changes nothing |
| `Tools.ExcludedInsertionIgnored` | tools.ts:26 | inserting an excluded name anywhere into the listing leaves the kept list unchanged |
| `Tools.DistDirectoryKept` | tools.ts:8 | exclusion is exact equality, not a prefix match: every `dist/...` path is kept |
| `Tools.Collected` | tools.ts:25-29 | the collection fails only with a git error |
| `Tools.RepositoryChanges` | tools.ts:20-32 | a change set is returned only when the listing succeeded; every failure is a git error |
| `Tools.RepositoryCalls` | tools.ts:20-32 | the first call is the listing; every later call fetches the diff of a non-excluded file; with a successful listing there are at most one more calls than kept files |
| `Tools.GetFileChangesInDirectory` | tools.ts:20-32 | the loop returns exactly the specified collection. Its calls on the repository are one listing, then one diff fetch per kept file, up to the first failure |
| `Tools.CollectedEntries` | tools.ts:27-28 | a successful collection has one entry per kept file, in order, each holding the diff fetched for that same file |
| `Tools.CollectedFailsIff` | tools.ts:27 | the collection fails exactly when the fetch of some kept file fails |
| `Tools.DiffCalls` | tools.ts:25-29 | the fetched files are a prefix of the kept files: never an excluded name, never out of order |
| `Tools.DiffCallsOnSuccess` | tools.ts:25-29 | a successful collection fetches every kept file exactly once, in order |
| `Tools.DiffCallsOnFailure` | tools.ts:25-29 | fail fast: after a failed collection, the last fetch is the failing one and its error is the one returned; every earlier fetch succeeded |
| `Tools.CollectedOnlyRetained` | tools.ts:26 | the collection depends only on the kept part of the listing |
| `Tools.CollectorIdempotent` | tools.ts:26 | collecting from a pre-filtered listing, or from one with an excluded name inserted, gives the same outcome |
| `Tools.CollectedIgnoresExcludedDiffs` | tools.ts:26-27 | the diffs of excluded names never affect the outcome or the fetches |
| `Tools.CollectorCallCount` | tools.ts:22-28 | a successful collection of N entries makes N + 1 repository calls |
| `Tools.SecondFetchFails` | tools.ts:25-29 | if the second of three files fails to fetch, that error is returned and the third file is never fetched |
| `Tools.Block` | tools.ts:41 | every summary block starts with `File: ` |
| `Tools.Blocks` | tools.ts:41 | one block per entry, in entry order, each the block of that entry |
| `Tools.Summary` | tools.ts:41 | the summary is empty exactly when there are no diffs, and otherwise starts with the first entry's block |
| `Tools.SummaryAppend` | tools.ts:41 | the summary of two change sets in sequence is their summaries separated by a blank line |
| `Tools.SummaryNotInjective` | tools.ts:41 | a diff ending in a blank line and a block gives the same summary as two entries, so the summary cannot always be split back into entries |
| `Tools.HasTypeAndSubject` | tools.ts:56 | the truthiness test: both the type and the subject are present and non-empty |
| `Tools.Accepts` | tools.ts:54-56 | the parser does not throw on the text and finds a non-empty type and subject in it |
| `Tools.CommitRequestInjective` | tools.ts:44-48 | two commit requests are equal exactly when their summaries are, so the prompt carries the whole summary |
| `Tools.GenerateCommitMessage` | tools.ts:33-62 | every message returned has no white space at either end and is its own trim; it is either `chore: no changes detected.` or a text the parser accepts; schema errors never arise inside |
| `Tools.CollectorErrorPropagates` | tools.ts:35 | a failed collection is the result, as a git error, whatever the completion service and parser are: no message is produced |
| `Tools.CompletionErrorPropagates` | tools.ts:44-48 | with changes, a failing completion call for the commit request gives that error as the result |
| `Tools.NoChangesSkipsCompletion` | tools.ts:37-39 | with no diffs, the result is `chore: no changes detected.` whatever the completion service and parser are, so no completion call is made |
| `Tools.OnlyCommitRequestMatters` | tools.ts:41-48 | with diffs, the result depends on the completion service only through its answer to the single commit request (`CommitRequest`: the fixed model, the fixed system instruction and the commit prompt of the summary) |
| `Tools.ModelPathOutcome` | tools.ts:50-61 | on the model path the result succeeds exactly when the parser accepts the trimmed reply, and then it is the trimmed reply unchanged. When the parser throws, its error is the result; when it parses but misses the type or the subject, the result is the invalid-commit error |
| `Tools.BlankReplyRejected` | tools.ts:50-57 | a reply of white space alone trims to the empty text, and if the parser throws on empty text that error is the result, so an empty message is never returned |
| `Tools.SubjectLimitNotEnforced` | tools.ts:56 | a subject longer than the 72-character limit of the reviewer persona is accepted |
| `Tools.ReadmeExample` | tools.ts:33-61 | one file `README.md` with diff `+hello` gives the summary `File: README.md \nChanges: +hello`; the reply `docs: update readme\n` becomes `docs: update readme` |
| `Tools.GetFileChangesTool` | tools.ts:64-68 | an empty root directory is rejected by the schema before any repository call; any other directory gets the collector's result and calls |
| `Tools.GenerateCommitMessageTool` | tools.ts:69-73 | the schema error arises exactly for an empty root directory; any other input gets the generator's result |

## Left out

- The prose of `SYSTEM_PROMPT` (prompts.ts:1-43) is not reproduced. It is a constant that takes no parameters, and tools.ts never uses it; the generator sends its own system instruction (tools.ts:46). Only the 72-character subject limit it states (prompts.ts:28) is kept, as `Prompts.SubjectLimit`.
- The internals of simple-git (`simpleGit`, `diffSummary`, `git.diff`) are I/O and are replaced by the `Repository` parameter. A failure to open the repository is folded into a failed listing. So for that case the call trace still records one `ListChanges` call, which the code never makes.
- The Gemini call (`generateText`) is a network call. It is replaced by the completion function; its reply text is arbitrary.
- The grammar and internals of `conventional-commits-parser` belong to a foreign library. The parser is an abstract function returning an optional type and subject, or the message of the error it throws. The scope and body it may report are not modelled, because the code never reads them.
- `Tools.GenerateCommitMessage`: because the parser is arbitrary, the parsed type and subject are not tied to the text (for example, the subject is not shown to be a part of the message). Which texts the real parser throws on is not modelled either; the blank-reply case is stated only under the premise that the parser throws on empty text (`Tools.BlankReplyRejected`).
- The zod schema machinery, `tool()`, `z.infer` and the tool description strings are library glue. Only the non-empty `rootDir` check is kept.
- Async suspension, cancellation and timeouts are concurrency concerns and are not modelled. Calls happen in sequence, as the awaited loop makes them.
- JavaScript strings are UTF-16 code units, while Dafny characters are Unicode scalar values. Trim is unaffected, because every character it strips is a single code unit. String lengths can differ for text outside the Basic Multilingual Plane, which matters only for the subject limit, and that limit is never checked.
- `Text.Trim`: the white-space set follows the Unicode 15 space separators (category Zs). A JavaScript engine bound to another Unicode version may differ in that category.
