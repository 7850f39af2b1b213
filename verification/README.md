# Auto-commit README updater, modelled in Dafny

The program (`pusher.py`) rewrites the "Last updated:" line of `README.md`
and then stages, commits and pushes the file with git, once per pass of an
endless loop, after checking once at start-up that it runs inside a git
repository. This project models the two parts of it that make decisions:

- **The README edit** (`update_readme`). The text is split on `'\n'`, the
  first line that contains `"Last updated:"` is overwritten with
  `"Last updated: " + ts`, and when no line contains it the element
  `"\nLast updated: " + ts` is appended. The lines are then joined with
  `'\n'`. A missing file is edited from the default text
  `"# Auto-Updated README\n\n"`. The file's contents and the timestamp are
  parameters, and the written text is the result.
  - `ReadmeEditor.EditText` is the specification of the edit.
  - `ReadmeEditor.UpdateReadme` is the scanning loop with the `updated` flag
    and the `break`, proved equal to it.
  - Python's `str.split('\n')`, `'\n'.join` and the substring test `in` are
    modelled in `PyStr`.
- **The command sequencing** (`commit_and_push` and `main`). Every git command
  is an abstract call whose answer is an `Option<string>`: the stripped
  standard output, or `None` for a non-zero exit status.
  - `GitCycle.CommitAndPush` gives the commands one cycle issues, in order, and
    what the cycle reports.
  - `GitCycle.RunUpdater` is `main`: the repository check, then the first
    `|rounds|` passes of the loop. Its specification is `GitCycle.RunRounds`.

Files: `wrappers.dfy` (the `Option` type), `py_str.dfy` (module `PyStr`),
`readme_editor.dfy` (module `ReadmeEditor`) and `git_cycle.dfy`
(module `GitCycle`).

Two facts about the code are worth stating plainly:

- The appended element begins with a newline, so when no line holds the
  marker, re-splitting the written file gives two more lines, not one: an
  empty line, then the marker line (`EditTextAppends`).
- Only the first line containing the marker is replaced; any later line that
  contains `"Last updated:"` is kept as it was (`EditLines`,
  `EditTextReplaces`). The written text always has a first marker line holding
  the new timestamp, so the edit never appends a second marker line
  (`EditedHasMarker`, `ReEditReplaces`, `LineCountSettles`).

## Model

| member | source | states |
|---|---|---|
| `PyStr.Split` | pusher.py:46 | `split('\n')` always gives at least one piece, and no piece contains a newline |
| `PyStr.JoinSplit` | pusher.py:62 | joining the split pieces with `'\n'` gives back exactly the original text |
| `PyStr.SplitJoin` | pusher.py:46 | splitting the join of one or more newline-free lines gives back those lines |
| `PyStr.SplitAroundNewline` | pusher.py:58 | the pieces of `a + "\n" + b` are the pieces of `a` followed by the pieces of `b` |
| `PyStr.JoinSnoc` | pusher.py:58 | appending an element to a non-empty list adds a newline and that element to the joined text |
| `PyStr.ContainsIffOccurs` | pusher.py:51 | `marker in line` holds exactly when the marker occurs in the line at some position |
| `PyStr.NotContainsWithoutFirstChar` | pusher.py:51 | a non-empty marker whose first character is absent from a line is not in that line |
| `ReadmeEditor.FindMarker` | pusher.py:49-54 | the scan finds the first line containing the marker, with no earlier line containing it; if it finds nothing, no line contains it |
| `ReadmeEditor.EditLines` | pusher.py:49-58 | with a first marker line at `i`: same length, line `i` becomes `"Last updated: " + ts`, every other line is unchanged (later marker lines too); without one: the old lines followed by exactly one new element `"\nLast updated: " + ts` |
| `ReadmeEditor.UpdateReadme` | pusher.py:37-62 | the loop with the `updated` flag and `break` writes exactly the specified edit of the file's contents, or of the default text when the file is absent |
| `ReadmeEditor.MarkerLineIsLine` | pusher.py:52 | the written marker line contains the marker, and has no newline when the timestamp has none |
| `ReadmeEditor.EditTextReplaces` | pusher.py:46-62 | with a marker line, splitting the written text again gives the original lines with only the first marker line replaced |
| `ReadmeEditor.EditTextAppends` | pusher.py:56-62 | without a marker line, the written text is `content + "\n\n" + "Last updated: " + ts`; split again, it is the old lines followed by `""` and the marker line (two more lines) |
| `ReadmeEditor.SplitAfterAppend` | pusher.py:58 | splitting `content + "\n\n" + "Last updated: " + ts` gives the lines of `content`, an empty line and the marker line |
| `ReadmeEditor.SplitHeader` | pusher.py:42 | a one-line heading followed by two newlines splits into the heading and two empty lines |
| `ReadmeEditor.HeaderText` | pusher.py:42-62 | a one-line heading without the marker, followed by two newlines, is written as the heading, four newlines and the marker line |
| `ReadmeEditor.AbsentFileText` | pusher.py:38-42 | a missing README is written as `"# Auto-Updated README\n\n\n\nLast updated: " + ts` |
| `ReadmeEditor.EditedHasMarker` | pusher.py:50-58 | the written text always has a first marker line, and that line is `"Last updated: " + ts` |
| `ReadmeEditor.ReEditReplaces` | pusher.py:50-58 | editing already-edited text only overwrites its first marker line, so the line count stays the same and no second marker line is appended |
| `ReadmeEditor.EditIdempotent` | pusher.py:50-58 | editing twice with the same newline-free timestamp gives the same text as editing once |
| `GitCycle.CommitMessage` | pusher.py:80-81 | the commit message is the prefix `"Auto-update README"`, then `" - "`, then the timestamp; each part can be read back at its position |
| `GitCycle.CommitAndPush` | pusher.py:66-90 | `git status --porcelain` is always issued first. A failed or empty status stops the cycle with nothing else issued. Otherwise add, commit and push follow in that order, and the report records each of their successes separately |
| `GitCycle.FailuresDoNotSuppress` | pusher.py:76-90 | the issued commands depend only on the status answer: a failed add or commit does not prevent the later steps |
| `GitCycle.StepsIssued` | pusher.py:69-90 | without changes, no add, commit or push is issued; with changes, each is issued exactly once |
| `GitCycle.RunRounds` | pusher.py:105-112 | each pass issues exactly one status query, the README exists after any pass, and the repository check is never repeated inside the loop |
| `GitCycle.RunUpdater` | pusher.py:92-112 | a failed `git rev-parse --git-dir` leaves only that command issued and the README untouched; otherwise the loop's passes run as specified |
| `GitCycle.LineCountSettles` | pusher.py:105-112 | with newline-free timestamps, the README's line count after any later pass equals its count after the first pass |

## Left out

- Running commands (`run_git_command`, pusher.py:17-31): `subprocess.run` with a shell, the capture of the output streams and the stripping of standard output are a foreign call. Each command is an abstract answer `Option<string>`.
- File reading and writing, and `os.path.exists` (pusher.py:38-40, 61-62): the file is an `Option<string>` input and the written text a `string` result. The newline translation of Python's text mode is part of that I/O, so the model sees the text after it.
- The clock (`datetime.now().strftime`, pusher.py:35, 80, 106): timestamps are parameters. The properties that need it require them to hold no newline, which the `%Y-%m-%d %H:%M:%S` format guarantees. The edit and the commit message read the clock separately, so a pass carries two timestamps.
- `GitCycle.RunUpdater`: models the first `|rounds|` passes of the endless `while True` loop, not the whole infinite run. `time.sleep`, `UPDATE_INTERVAL` and the `KeyboardInterrupt` exit (pusher.py:105-119) are timing and signal behaviour.
- Each round's git answers are one function from command to answer. This is enough because a pass issues each command at most once. Whether the answers are consistent with the file's contents belongs to git and is not modelled.
- Between passes the README is assumed to hold exactly what the previous pass wrote: `RunRounds` feeds each pass's written text to the next pass, while the program re-reads the file from disk at every pass (pusher.py:38-40). Other writers, such as a user's edit or a revert, are not modelled, and `LineCountSettles` holds only under this assumption.
- The `print` diagnostics are not modelled as output. `Outcome` records only which of the messages at pusher.py:72, 77, 84, 88 and 90 would be printed: `NoChanges` for "No changes to commit", and `Attempted(staged, committed, pushed)` for the staged, committed and pushed success messages and the push failure message. All other prints are dropped.
- The shell quoting of the commit message (pusher.py:83). The quoting is a property of the shell, so the message is modelled as the string handed to `git commit -m`.
