/**
  Built-in constants and the provider-specific pull-request detection.
  Each detection regular expression is written out as a predicate: the
  pattern is searched anywhere in the message (the expressions are not
  anchored), `.` matches any character except a line terminator, and `\d`
  is an ASCII digit.
*/
module Config {
  import opened Base
  import opened Types

  /** The marker that starts every release header line. */
  const VersionHeader: string := "## "

  /** The configuration used for every key a config file leaves out. */
  const DefaultConfig: Config := Config(
    provider := None,
    header := "# Changelog",
    fileName := "CHANGELOG.md",
    versionPrefix := "v",
    versionBumpType := "patch",
    startVersion := "0.0.0",
    pullRequestOnly := false)

  /** The characters a regular-expression `.` does not match. */
  predicate IsLineTerminator(c: char) {
    c == '\n' || c == '\r' || c == '\U{2028}' || c == '\U{2029}'
  }

  predicate IsLowerHex(c: char) {
    IsDigit(c) || 'a' <= c <= 'f'
  }

  /** `s[lo..hi]` is a non-empty run matched by `\d+`. */
  predicate DigitsIn(s: string, lo: int, hi: int) {
    0 <= lo < hi <= |s| && forall m :: lo <= m < hi ==> IsDigit(s[m])
  }

  /** `s[lo..hi]` is a non-empty run matched by `.+`. */
  predicate LineCharsIn(s: string, lo: int, hi: int) {
    0 <= lo < hi <= |s| && forall m :: lo <= m < hi ==> !IsLineTerminator(s[m])
  }

  /** `Merge pull request #\d+ from .+\n` matches `s[i..k+1]`, the digits ending at `j`. */
  predicate GithubPrAt(s: string, i: int, j: int, k: int) {
    && OccursAt(s, "Merge pull request #", i)
    && DigitsIn(s, i + 20, j)
    && OccursAt(s, " from ", j)
    && LineCharsIn(s, j + 6, k)
    && k < |s| && s[k] == '\n'
  }

  predicate GithubPr(s: string) {
    exists i, j, k | 0 <= i <= j <= k <= |s| :: GithubPrAt(s, i, j, k)
  }

  /** `Merged in .+ \(pull request #\d+\)` matches `s[i..k+1]`, the branch ending at `j`. */
  predicate BitbucketPrAt(s: string, i: int, j: int, k: int) {
    && OccursAt(s, "Merged in ", i)
    && LineCharsIn(s, i + 10, j)
    && OccursAt(s, " (pull request #", j)
    && DigitsIn(s, j + 16, k)
    && k < |s| && s[k] == ')'
  }

  predicate BitbucketPr(s: string) {
    exists i, j, k | 0 <= i <= j <= k <= |s| :: BitbucketPrAt(s, i, j, k)
  }

  /** `Merge branch '.+' into '.+'\n` matches `s[i..k+2]`. */
  predicate GitlabPrAt(s: string, i: int, j: int, k: int) {
    && OccursAt(s, "Merge branch '", i)
    && LineCharsIn(s, i + 14, j)
    && OccursAt(s, "' into '", j)
    && LineCharsIn(s, j + 8, k)
    && OccursAt(s, "'\n", k)
  }

  predicate GitlabPr(s: string) {
    exists i, j, k | 0 <= i <= j <= k <= |s| :: GitlabPrAt(s, i, j, k)
  }

  /** `commit [0-9a-f]{40}\n` matches `s[i..i+48]`. */
  predicate CommitMarkerAt(s: string, i: int) {
    && OccursAt(s, "commit ", i)
    && i + 48 <= |s|
    && (forall m :: i + 7 <= m < i + 47 ==> IsLowerHex(s[m]))
    && s[i + 47] == '\n'
  }

  predicate CommitMarker(s: string) {
    exists i | 0 <= i <= |s| :: CommitMarkerAt(s, i)
  }

  /**
    `getPullRequestRegex(provider).test(message)`: the GitHub, Bitbucket and
    GitLab patterns for those providers, the raw `commit <hash>` marker for
    plain git and for no provider at all.
  */
  predicate IsPullRequestMessage(provider: Option<Provider>, message: string) {
    match provider
    case Some(GitHub) => GithubPr(message)
    case Some(Bitbucket) => BitbucketPr(message)
    case Some(GitLab) => GitlabPr(message)
    case _ => CommitMarker(message)
  }

  /**
    Every pattern except Bitbucket's ends in a newline, so a message without
    line breaks (a one-line subject) can only ever be detected for Bitbucket.
  */
  lemma OnlyBitbucketMatchesOneLine(provider: Option<Provider>, message: string)
    requires forall m :: 0 <= m < |message| ==> message[m] != '\n'
    ensures provider != Some(Bitbucket) ==> !IsPullRequestMessage(provider, message)
  {
    forall i, j, k | 0 <= i <= j <= k <= |message|
      ensures !GithubPrAt(message, i, j, k) && !GitlabPrAt(message, i, j, k)
    {
      if k + 1 < |message| {
        assert message[k..k + 2][1] != "'\n"[1];
      }
    }
    forall i | 0 <= i <= |message| ensures !CommitMarkerAt(message, i) {
      if i + 47 < |message| {
        assert message[i + 47] != '\n';
      }
    }
  }

  /** A Bitbucket merge subject is detected without any trailing newline. */
  lemma BitbucketSubjectDetected()
    ensures IsPullRequestMessage(Some(Bitbucket), "Merged in feature/x (pull request #12)")
  {
    var s := "Merged in feature/x (pull request #12)";
    assert OccursAt(s, "Merged in ", 0);
    assert OccursAt(s, " (pull request #", 19);
    assert BitbucketPrAt(s, 0, 19, 37);
  }

  /** The same shape of GitHub subject is detected only when a newline follows it. */
  lemma GithubNeedsNewline()
    ensures !IsPullRequestMessage(Some(GitHub), "Merge pull request #7 from me/x")
    ensures IsPullRequestMessage(Some(GitHub), "Merge pull request #7 from me/x\n")
  {
    OnlyBitbucketMatchesOneLine(Some(GitHub), "Merge pull request #7 from me/x");
    var s := "Merge pull request #7 from me/x\n";
    assert OccursAt(s, "Merge pull request #", 0);
    assert OccursAt(s, " from ", 21);
    assert GithubPrAt(s, 0, 21, 31);
  }
}
