# Commit-message ticket prefixer, modelled in Dafny

The extension keeps a repository's commit-message box in line with its current Git branch.

Its core is two functions in `src/extension.ts`:

- `getCommitMessage(branch, currentMessage)` looks for a ticket ID in the branch name. The ticket ID is "ML-" followed by digits, and it must be followed by '-' in the name; the pattern is `(ML-\d+)-.*` and is searched anywhere in the name. If there is none, or the message already starts with the ticket ID, the message is returned unchanged. Otherwise the result is `[<ticket>] <message>`.
- `updateCommitMessage(repo)` reads the branch name from `repo.state.HEAD?.name ?? ""`. If the message box matches `^\[.+\] ?(.*)`, it strips that bracketed prefix (`replace(pattern, "$1")`). It then writes `getCommitMessage(branch, message)` back into the box.

The model is organised as follows:

- `wrappers.dfy`: an `Option` datatype.
- `ticket_pattern.dfy` (module `TicketPattern`): the branch pattern as string functions.
  - `Matches` is a reference predicate. It admits every way the regex could match, including backtracking over shorter digit runs.
  - `BranchPrefix` is the computed capture. Lemmas tie it to the leftmost match and the full digit run.
- `existing_prefix.dfy` (module `ExistingPrefix`): the prefix pattern and the replacement.
  - `BracketMatch` is a reference predicate. It admits every way `^\[.+\]` could match.
  - `CloseIndex` and `Strip` compute the result. Lemmas show that the computed `']'` is the greedy one and that `Strip` returns the text after it.
  - JavaScript's `.` does not match `\n`, `\r`, U+2028 or U+2029. So the match stays on the first line, and the later lines come through untouched.
- `extension.dfy` (module `Extension`):
  - `GetCommitMessage` and `UpdatedMessage`, the value the update writes back;
  - the idempotence results;
  - worked examples;
  - the `Repository` class, whose `UpdateCommitMessage` method changes the message-box field in place.

Two facts about the code shape the model:

- Nothing is configurable. The branch pattern `ML-\d+` (src/extension.ts:9), the format `[${prefix}] ` with one space (line 21) and the strip pattern (line 27) are fixed.
- A repeated update is not always a no-op. If the stripped message's first line holds a `']'`, the greedy `.+` strips into the message on the next run. `Extension.UpdateIdempotentIff` states exactly when a second update changes nothing, and `Extension.NotIdempotentExample` shows a message that changes.

## Model

| member | source | states |
|---|---|---|
| TicketPattern.IsDigit | src/extension.ts:9 | `\d` without the `u` flag: a character is a digit exactly when it is one of the ASCII digits "0123456789" |
| TicketPattern.MatchesAt | src/extension.ts:9 | the greedy attempt at one index: when it succeeds, the reference match holds there with the whole digit run |
| TicketPattern.DigitRun | src/extension.ts:9 | greedy `\d+` takes the whole run of ASCII digits: every character in the run is a digit and the one after it is not |
| TicketPattern.MatchesAtIff | src/extension.ts:9 | backtracking adds nothing: the pattern matches at an index exactly when some digit count matches there, and that digit count must be the full run |
| TicketPattern.FindFrom | src/extension.ts:9-11 | the scan returns the leftmost matching index at or after its start, or None when no index from there on matches |
| TicketPattern.Capture | src/extension.ts:15 | the capture group is "ML-" and at least one digit, it occurs in the branch at the match, and it is followed there by '-' |
| TicketPattern.BranchPrefix | src/extension.ts:9-15 | a found ticket ID starts with "ML-", has only digits after that, and contains no ']' or space |
| TicketPattern.BranchPrefixNone | src/extension.ts:11-13 | the test fails exactly when no way of matching exists anywhere in the branch name |
| TicketPattern.BranchPrefixSome | src/extension.ts:15 | with the leftmost match at i and n digits, the capture is "ML-" and exactly those n digits, and a '-' follows them |
| TicketPattern.LeadingTicket | src/extension.ts:9-15 | a branch "ML-" + digits + "-" + rest yields the ticket "ML-" + digits, whatever the rest |
| TicketPattern.NoTicketExamples | src/extension.ts:11-13 | "main" and the empty branch name carry no ticket |
| TicketPattern.UnanchoredExample | src/extension.ts:9 | the pattern is not anchored: "feature/ML-12-x" yields "ML-12" |
| TicketPattern.TicketOf123Example | src/extension.ts:15 | "ML-123-something" yields "ML-123" |
| ExistingPrefix.IsLineTerminator | src/extension.ts:27 | the characters JavaScript's `.` does not match are exactly "\n", "\r", U+2028 and U+2029 |
| ExistingPrefix.CloseIndex | src/extension.ts:27 | where greedy `.+` stops: a found ']' is a match of `^\[.+\]` on the first line with no ']' after it on that line; None means no '[' at the start or no ']' at index 2 or later on the first line |
| ExistingPrefix.HasExistingPrefix | src/extension.ts:29 | `existingPattern.test`: a match means the message starts with '[' and its first line has a ']' at index 2 or later |
| ExistingPrefix.LineEnd | src/extension.ts:27 | returns the first line terminator at or after the start, or the end of the text; no terminator comes before it |
| ExistingPrefix.FirstLine | src/extension.ts:27 | the first line is a prefix of the text, contains no line terminator, and is followed by one or by the end |
| ExistingPrefix.LastCloseBefore | src/extension.ts:27 | finds the last ']' at index 2 or later before the bound, with no ']' after it, or None when there is no such ']' |
| ExistingPrefix.BracketMatchOnFirstLine | src/extension.ts:27 | every way of matching `^\[.+\]` ends on the first line |
| ExistingPrefix.CloseIndexIff | src/extension.ts:27-29 | the computed ']' is a match of `^\[.+\]` and is the last any match could end on (greedy `.+`), and conversely |
| ExistingPrefix.HasExistingPrefixIff | src/extension.ts:29 | the test succeeds exactly when some way of matching `^\[.+\]` exists |
| ExistingPrefix.Cut | src/extension.ts:27-30 | the replacement keeps the text from a cut point on the first line; the cut is 0 exactly when the pattern does not match |
| ExistingPrefix.Strip | src/extension.ts:29-30 | the result is a suffix of the message; it is the message itself when the pattern does not match, and strictly shorter when it does |
| ExistingPrefix.StripAt | src/extension.ts:27-30 | with the greedy match ending on the ']' at j, the result is everything after j, minus one space if a space follows |
| ExistingPrefix.StripFirstLine | src/extension.ts:27-30 | after a strip the first line holds no ']', and every line after the first is unchanged |
| ExistingPrefix.NoCloseNoPrefix | src/extension.ts:27-29 | a message whose first line has no ']' does not match the pattern |
| ExistingPrefix.StripIdempotent | src/extension.ts:29-30 | stripping twice gives the same as stripping once |
| ExistingPrefix.StripUndoesFormat | src/extension.ts:21-30 | stripping "[" + p + "] " + m gives m back when m's first line has no ']'; otherwise it loses part of m |
| ExistingPrefix.StripBeforeTail | src/extension.ts:27-30 | stripping "[" + inner + "]" + tail, where tail has no ']', gives tail less one leading space |
| ExistingPrefix.StripStaleTicketExample | src/extension.ts:27-30 | "[ML-42] fix bug" strips to "fix bug" |
| ExistingPrefix.StripGreedyExample | src/extension.ts:27-30 | "[ML-1] fix a]b" strips to "b": the greedy `.+` runs to the last ']' |
| ExistingPrefix.StripFirstLineOnlyExample | src/extension.ts:27-30 | a ']' on a later line is not seen: "[ML-1] a\nb] c" strips to "a\nb] c" |
| Extension.GetCommitMessage | src/extension.ts:8-22 | the result always ends with the current message |
| Extension.NoTicketUnchanged | src/extension.ts:11-13 | a branch name with no match leaves the message unchanged |
| Extension.TicketApplied | src/extension.ts:15-21 | with the leftmost match, a message already starting with the ticket ID is returned as is; any other message becomes "[" + ticket + "] " + message, three characters longer than the ticket and message together |
| Extension.UpdatedMessage | src/extension.ts:24-33 | the written-back message ends with the stripped message and equals it when the branch has no ticket |
| Extension.UpdateIdempotentIff | src/extension.ts:24-33 | a second update changes nothing exactly when the branch has no ticket, the stripped message starts with the ticket ID, or the stripped message's first line has no ']' |
| Extension.UpdateTwiceNoTicket | src/extension.ts:24-33 | with no ticket in the branch name, a second update changes nothing |
| Extension.UpdateTwiceKept | src/extension.ts:17-18 | when the stripped message already starts with the ticket ID, a second update changes nothing |
| Extension.UpdateTwicePrefixed | src/extension.ts:21-33 | when the first update prefixes the message, a second update changes nothing exactly when the stripped message's first line has no ']' |
| Extension.UpdateLeavesAlone | src/extension.ts:29-33 | a message with nothing to strip and nothing to prefix is written back unchanged |
| Extension.ReapplyFormatted | src/extension.ts:21-33 | updating a freshly prefixed message again restores it exactly when the original's first line has no ']' |
| Extension.TicketHasNoTerminator | src/extension.ts:9-15 | a ticket ID contains no line terminator |
| Extension.UpdateIdempotent | src/extension.ts:24-33 | when the stripped message's first line has no ']', a second update changes nothing |
| Extension.UpdateIdempotentAfterStrip | src/extension.ts:24-33 | when a bracketed prefix was actually stripped, a second update changes nothing |
| Extension.NoHeadOnlyStrips | src/extension.ts:25 | with no HEAD name the branch is "", so the update only strips |
| Extension.UpdateFreshMessage | src/extension.ts:29-33 | a message with no bracketed prefix that does not start with the ticket ID gets "[" + ticket + "] " in front |
| Extension.FirstCommitExample | src/extension.ts:24-33 | on "ML-123-something", "initial commit" becomes "[ML-123] initial commit" |
| Extension.StalePrefixExample | src/extension.ts:24-33 | on "ML-43-fix", the stale "[ML-42] fix bug" becomes "[ML-43] fix bug" |
| Extension.AlreadyStartsExample | src/extension.ts:17-18 | "ML-123 foo" on "ML-12-x" already starts with "ML-12" and is left as it is |
| Extension.CloseInMessageExample | src/extension.ts:24-33 | on "ML-1-x", "fix a]b" becomes "[ML-1] fix a]b" |
| Extension.NotIdempotentExample | src/extension.ts:24-33 | a second update of "[ML-1] fix a]b" on "ML-1-x" gives "[ML-1] b" |
| Extension.Repository.constructor | src/extension.ts:24-25 | a repository holds the given HEAD and message-box text |
| Extension.Repository.BranchName | src/extension.ts:25 | `repo.state.HEAD?.name ?? ""`: the HEAD's name when there is a HEAD with a name, and "" otherwise |
| Extension.Repository.UpdateCommitMessage | src/extension.ts:24-34 | the message box afterwards holds `UpdatedMessage` of the old branch name and old text, and HEAD is unchanged |

## Left out

- `activate` (src/extension.ts:36 onward) is not modelled. It looks up the Git extension, shows notifications, and calls the update once per repository. It is VS Code API and I/O.
- `fs.watchFile` on `.git/HEAD` and `path.join` are not modelled. They are file-system watching, outside the model. On each change the watcher calls the same `UpdateCommitMessage`.
- `deactivate` does nothing and is not modelled.
- The `GitExtension` and `Repository` types of `./git` are not modelled. They are replaced by the `Repository` class, which keeps only `state.HEAD` and `inputBox.value`.
- Extension.Repository.BranchName treats an absent HEAD and a HEAD without a name the same way, both as "", as `?.` and `??` do. The model does not say why a name is missing.
- Characters are Unicode scalar values, not JavaScript's UTF-16 code units. A message with characters outside the BMP has a different length, but the same strip and prefix results: the patterns only look at ASCII characters and the four line terminators.
