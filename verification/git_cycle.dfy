/** `commit_and_push` and `main`: which git commands one update cycle issues,
    and the repository check that guards the update loop. Running a command is
    a foreign call; the model sees only its result: the stripped standard
    output, or `None` when the command exited with a non-zero status. */
module GitCycle {
  import opened Wrappers
  import opened PyStr
  import opened ReadmeEditor

  /** The file that is staged. */
  const ReadmePath := "README.md"

  /** The fixed first part of every commit message. */
  const CommitPrefix := "Auto-update README"

  /** The git command lines the program runs. */
  datatype Command =
    | RevParseGitDir          // git rev-parse --git-dir
    | StatusPorcelain         // git status --porcelain
    | Add(path: string)       // git add <path>
    | Commit(message: string) // git commit -m "<message>"
    | Push                    // git push

  /** What each command would answer in one cycle. */
  type Git = Command -> Option<string>

  /** `if not status`: a failed status query and an empty one both mean "nothing to commit". */
  predicate HasChanges(status: Option<string>)
  {
    status.Some? && status.value != ""
  }

  /** The commit message: the prefix, a spaced dash, then the timestamp. */
  function CommitMessage(ts: string): (m: string)
    ensures |m| == |CommitPrefix| + 3 + |ts|
    ensures m[..|CommitPrefix|] == CommitPrefix
    ensures m[|CommitPrefix|..|CommitPrefix| + 3] == " - "
    ensures m[|CommitPrefix| + 3..] == ts
  {
    CommitPrefix + " - " + ts
  }

  /** What a cycle reported: nothing to commit, or which of the three steps succeeded. */
  datatype Outcome = NoChanges | Attempted(staged: bool, committed: bool, pushed: bool)

  /** The commands one cycle issued, in order, and what it reported. */
  datatype CycleRun = CycleRun(issued: seq<Command>, outcome: Outcome)

  /** `commit_and_push`: query the status; stop when there is nothing to commit;
      otherwise stage, commit and push, each attempted whatever became of the
      step before. `ts` is the timestamp read for the commit message. */
  function CommitAndPush(git: Git, ts: string): (r: CycleRun)
    ensures |r.issued| >= 1 && r.issued[0] == StatusPorcelain
    ensures !HasChanges(git(StatusPorcelain)) ==> |r.issued| == 1 && r.outcome == NoChanges
    ensures HasChanges(git(StatusPorcelain)) ==>
              r.issued == [StatusPorcelain, Add(ReadmePath), Commit(CommitMessage(ts)), Push]
    ensures HasChanges(git(StatusPorcelain)) ==>
              r.outcome == Attempted(git(Add(ReadmePath)).Some?,
                                     git(Commit(CommitMessage(ts))).Some?,
                                     git(Push).Some?)
  {
    var status := git(StatusPorcelain);
    if !HasChanges(status) then CycleRun([StatusPorcelain], NoChanges)
    else
      var staged := git(Add(ReadmePath)).Some?;
      var message := CommitMessage(ts);
      var committed := git(Commit(message)).Some?;
      var pushed := git(Push).Some?;
      CycleRun([StatusPorcelain, Add(ReadmePath), Commit(message), Push],
               Attempted(staged, committed, pushed))
  }

  /** The commands a cycle issues depend on the status answer alone: a failed
      add or commit does not keep the later steps from being issued. */
  lemma FailuresDoNotSuppress(git1: Git, git2: Git, ts: string)
    requires git1(StatusPorcelain) == git2(StatusPorcelain)
    ensures CommitAndPush(git1, ts).issued == CommitAndPush(git2, ts).issued
  {
  }

  /** Without changes no add, commit or push is issued; with changes each is
      issued exactly once, add before commit before push. */
  lemma StepsIssued(git: Git, ts: string)
    ensures !HasChanges(git(StatusPorcelain)) ==>
              forall c :: c in CommitAndPush(git, ts).issued ==> c == StatusPorcelain
    ensures HasChanges(git(StatusPorcelain)) ==>
              multiset(CommitAndPush(git, ts).issued)[Add(ReadmePath)] == 1 &&
              multiset(CommitAndPush(git, ts).issued)[Commit(CommitMessage(ts))] == 1 &&
              multiset(CommitAndPush(git, ts).issued)[Push] == 1
  {
  }

  /** One pass of the update loop: the timestamp `update_readme` reads, the one
      `commit_and_push` reads, and git's answers during the pass. */
  datatype Round = Round(editTs: string, commitTs: string, git: Git)

  /** Every command issued so far, and the README as the file system holds it. */
  datatype Trace = Trace(issued: seq<Command>, readme: Option<string>)

  /** The first `|rounds|` passes of the update loop, starting from `readme`:
      each pass rewrites the README and then runs one commit-and-push cycle.
      Each pass reads the text the previous pass wrote: no other writer
      touches the file between passes. */
  function RunRounds(readme: Option<string>, rounds: seq<Round>): (t: Trace)
    ensures |rounds| == 0 ==> t == Trace([], readme)
    ensures |rounds| > 0 ==> t.readme.Some?
    ensures multiset(t.issued)[StatusPorcelain] == |rounds|
    ensures RevParseGitDir !in t.issued
    decreases |rounds|
  {
    if |rounds| == 0 then Trace([], readme)
    else
      var before := RunRounds(readme, rounds[..|rounds| - 1]);
      var round := rounds[|rounds| - 1];
      var written := EditText(ContentOf(before.readme), round.editTs);
      Trace(before.issued + CommitAndPush(round.git, round.commitTs).issued, Some(written))
  }

  /** Regrouping a concatenation of three sequences. */
  lemma AppendAssociative<T>(a: seq<T>, b: seq<T>, c: seq<T>)
    ensures (a + b) + c == a + (b + c)
  {
  }

  /** One more pass extends the trace of the passes before it. */
  lemma RunRoundsStep(readme: Option<string>, rounds: seq<Round>, k: nat)
    requires k < |rounds|
    ensures var before := RunRounds(readme, rounds[..k]);
            RunRounds(readme, rounds[..k + 1]) ==
            Trace(before.issued + CommitAndPush(rounds[k].git, rounds[k].commitTs).issued,
                  Some(EditText(ContentOf(before.readme), rounds[k].editTs)))
  {
    assert rounds[..k + 1][..k] == rounds[..k];
  }

  /** `main`, over the first `|rounds|` passes of its loop: a failed repository
      check ends the program before any edit or cycle; otherwise each pass
      updates the README and runs `commit_and_push`. `revParse` is the answer
      to `git rev-parse --git-dir`. */
  method RunUpdater(revParse: Option<string>, readme: Option<string>, rounds: seq<Round>)
    returns (t: Trace)
    ensures revParse.None? ==> t == Trace([RevParseGitDir], readme)
    ensures revParse.Some? ==>
              t.issued == [RevParseGitDir] + RunRounds(readme, rounds).issued &&
              t.readme == RunRounds(readme, rounds).readme
  {
    var issued := [RevParseGitDir];
    if revParse.None? {
      return Trace(issued, readme);
    }
    var file := readme;
    for k := 0 to |rounds|
      invariant issued == [RevParseGitDir] + RunRounds(readme, rounds[..k]).issued
      invariant file == RunRounds(readme, rounds[..k]).readme
    {
      ghost var before := RunRounds(readme, rounds[..k]);
      RunRoundsStep(readme, rounds, k);
      var written := UpdateReadme(file, rounds[k].editTs);
      file := Some(written);
      var cycle := CommitAndPush(rounds[k].git, rounds[k].commitTs);
      AppendAssociative([RevParseGitDir], before.issued, cycle.issued);
      issued := issued + cycle.issued;
    }
    assert rounds[..|rounds|] == rounds;
    t := Trace(issued, file);
  }

  /** Every edit timestamp of the rounds is free of newlines. */
  predicate PlainTimestamps(rounds: seq<Round>)
  {
    forall k :: 0 <= k < |rounds| ==> NoNewline(rounds[k].editTs)
  }

  /** After the first pass the README's line count never changes again: later
      passes only overwrite the marker line and never append a second one. */
  lemma {:induction false} LineCountSettles(readme: Option<string>, rounds: seq<Round>, k: nat)
    requires PlainTimestamps(rounds)
    requires 1 <= k <= |rounds|
    ensures |Split(ContentOf(RunRounds(readme, rounds[..k]).readme))| ==
            |Split(ContentOf(RunRounds(readme, rounds[..1]).readme))|
    decreases k
  {
    if k > 1 {
      LineCountSettles(readme, rounds, k - 1);
      RunRoundsStep(readme, rounds, k - 2);
      RunRoundsStep(readme, rounds, k - 1);
      var earlier := ContentOf(RunRounds(readme, rounds[..k - 2]).readme);
      var _ := ReEditReplaces(earlier, rounds[k - 2].editTs, rounds[k - 1].editTs);
    }
  }
}
