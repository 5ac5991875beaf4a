/**
 * The checkpoint commit made after each migration (`commit`) and the short
 * hash it reports (`getShortHash`). The git processes are replaced by the
 * answers they give: whether the working tree can be listed and holds
 * changes, whether `git commit` succeeds, and the trimmed output of
 * `git rev-parse HEAD`.
 */
module Git {
  import opened Wrappers
  import opened Strings

  /** What listing the modified, deleted and untracked files reports. */
  datatype TreeStatus = TreeUnreadable | NothingToCommit | ChangesToCommit

  /**
   * The answers git gives during one `commit` call. `head` is the trimmed
   * HEAD hash, or `None` when `git rev-parse HEAD` fails.
   */
  datatype GitAnswers = GitAnswers(status: TreeStatus, commitSucceeds: bool, head: Option<string>)

  /** How a `commit` call ends; `Committed` carries what the success message shows. */
  datatype CommitOutcome =
    | ReadFailed
    | NoChanges
    | CommitFailed
    | Committed(shortHash: Option<string>, shortMessage: string)

  const ShortHashLength: nat := 9

  /** `getShortHash`: the first nine characters of the hash, or all of a shorter one. */
  function GetShortHash(hash: string): (r: string)
    ensures |r| == Min(ShortHashLength, |hash|)
    ensures StartsWith(hash, r)
  {
    hash[..Min(ShortHashLength, |hash|)]
  }

  /** `message.split('\n')[0]`: the first line of the commit message. */
  function FirstLine(message: string): (r: string)
    ensures '\n' !in r
    ensures StartsWith(message, r)
    ensures '\n' !in message ==> r == message
    ensures '\n' in message ==> |r| < |message| && message[|r|] == '\n'
  {
    SplitPrefix(message, '\n');
    Split(message, '\n')[0]
  }

  /** `commit`: make a checkpoint commit if the tree has changes. */
  function Commit(message: string, git: GitAnswers): (r: CommitOutcome)
    ensures r == ReadFailed <==> git.status == TreeUnreadable
    ensures r == NoChanges <==> git.status == NothingToCommit
    ensures r == CommitFailed <==> git.status == ChangesToCommit && !git.commitSucceeds
    ensures r.Committed? ==> r.shortMessage == FirstLine(message)
    ensures r.Committed? ==> (r.shortHash.Some? <==> git.head.Some? && git.head.value != "")
    ensures r.Committed? && r.shortHash.Some? ==> r.shortHash.value == GetShortHash(git.head.value)
  {
    match git.status
    case TreeUnreadable => ReadFailed
    case NothingToCommit => NoChanges
    case ChangesToCommit =>
      if !git.commitSucceeds then CommitFailed
      else
        var hash := if git.head.Some? && git.head.value != "" then Some(GetShortHash(git.head.value)) else None;
        Committed(hash, FirstLine(message))
  }

  /** The boolean `commit` returns. */
  predicate Succeeded(r: CommitOutcome) { r.NoChanges? || r.Committed? }

  // ------------------------------------------------------------------ lemmas

  /**
   * The update goes on after a commit exactly when there was nothing to commit
   * or the commit went through; a missing HEAD hash does not stop it.
   */
  lemma CommitSucceedsIff(message: string, git: GitAnswers)
    ensures Succeeded(Commit(message, git)) <==>
      git.status == NothingToCommit || (git.status == ChangesToCommit && git.commitSucceeds)
    ensures git.status == ChangesToCommit && git.commitSucceeds && git.head.None? ==>
      Commit(message, git) == Committed(None, FirstLine(message))
  {
  }

  /** Every hash of at most nine characters is its own short hash; longer ones keep exactly nine. */
  lemma ShortHashOfShort(hash: string)
    ensures |hash| <= ShortHashLength ==> GetShortHash(hash) == hash
    ensures |hash| > ShortHashLength ==> |GetShortHash(hash)| == ShortHashLength
  {
  }

  lemma {:induction false} SplitPrefix(s: string, c: char)
    ensures StartsWith(s, Split(s, c)[0])
    ensures c in s ==> |Split(s, c)[0]| < |s| && s[|Split(s, c)[0]|] == c
    ensures c !in s ==> Split(s, c)[0] == s
    decreases |s|
  {
    if c !in s { SplitWithoutSeparator(s, c); }
    if s != [] && s[0] != c {
      SplitPrefix(s[1..], c);
      var p := Split(s[1..], c)[0];
      assert Split(s, c)[0] == [s[0]] + p;
      if c in s {
        assert c in s[1..];
      }
    }
  }
}
