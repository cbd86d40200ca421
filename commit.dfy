/**
  One git-log record rendered as one Markdown bullet. A plain commit links
  its hash; a pull-request merge shows its body, an optional link to the
  pull request and links to the (truncated) hashes it folded in.
*/
module Commits {
  import opened Base
  import opened Types
  import opened Config
  import opened Versions
  import opened GitRepository

  /**
    A commit as the changelog sees it. `date` stays the raw text of the log
    record; the provider is the repository's.
  */
  datatype Commit = Commit(
    hash: string,
    message: string,
    body: string,
    date: string,
    branch: Option<string>,
    authorName: string,
    authorEmail: string,
    refs: seq<string>,
    parentHashes: seq<string>,
    isPullRequest: bool,
    commits: Option<seq<string>>,
    provider: Option<Provider>)

  /**
    `new Commit(attrs, provider)`: every field is copied from the record;
    `isPullRequest` is `false` and `commits` is `null` unless the record has them.
  */
  function NewCommit(attrs: GitLog, provider: Option<Provider>): (c: Commit)
    ensures c.isPullRequest <==> attrs.isPullRequest == Some(true)
    ensures attrs.commits.None? ==> c.commits.None?
    ensures c.commits == attrs.commits && c.hash == attrs.hash && c.message == attrs.message && c.body == attrs.body
    ensures c.provider == provider
  {
    Commit(attrs.hash, attrs.message, attrs.body, attrs.date, attrs.branch, attrs.authorName,
      attrs.authorEmail, attrs.refs, attrs.parentHashes, attrs.isPullRequest.GetOr(false),
      attrs.commits, provider)
  }

  // ---------------------------------------------------------------------------
  // The `pullRequestNo` capture of `Merged in (?<branch>.+) \(pull request #(?<pullRequestNo>\d+)\)`

  /** Where the number after ` (pull request #` at `j` closes; `\d+` must take the whole run. */
  function PrClose(s: string, j: nat): (r: Option<nat>)
    requires j <= |s|
    ensures r.Some? ==> OccursAt(s, " (pull request #", j) && DigitsIn(s, j + 16, r.value) && r.value < |s| && s[r.value] == ')'
    ensures forall k :: OccursAt(s, " (pull request #", j) && DigitsIn(s, j + 16, k) && k < |s| && s[k] == ')' ==> r == Some(k)
  {
    if !OccursAt(s, " (pull request #", j) then None
    else
      var d := DigitRun(s, j + 16);
      var k := j + 16 + d;
      if d == 0 || k >= |s| || s[k] != ')' then None else Some(k)
  }

  /** The greedy branch capture backtracks from `j` down to `lo`: the last opening the rest matches after. */
  function LastOpen(s: string, lo: nat, j: int): (r: Option<nat>)
    requires j <= |s|
    ensures r.Some? ==> lo <= r.value <= j && PrClose(s, r.value).Some?
    ensures forall q :: lo <= q <= j && PrClose(s, q).Some? ==> r.Some? && q <= r.value
    decreases j - lo + 1
  {
    if j < lo then None
    else if PrClose(s, j).Some? then Some(j)
    else LastOpen(s, lo, j - 1)
  }

  /** The positions `(i, j, k)` of one match. */
  datatype PrMatch = PrMatch(i: nat, j: nat, k: nat)

  /** The match starting at `i`, if any: the furthest opening the branch capture can reach. */
  function PrMatchAt(s: string, i: nat): (r: Option<PrMatch>)
    requires i <= |s|
    ensures r.Some? ==> r.value.i == i && BitbucketPrAt(s, i, r.value.j, r.value.k)
    ensures forall j, k :: BitbucketPrAt(s, i, j, k) ==> r.Some? && j <= r.value.j
  {
    if !OccursAt(s, "Merged in ", i) then None
    else
      var hi := i + 10 + LineRun(s, i + 10);
      assert hi == |s| || IsLineTerminator(s[hi]);
      assert forall j, k :: BitbucketPrAt(s, i, j, k) ==> PrClose(s, j) == Some(k);
      match LastOpen(s, i + 11, hi)
      case None => None
      case Some(j) => Some(PrMatch(i, j, PrClose(s, j).value))
  }

  /** The leftmost match at or after `i`. */
  function FirstPrMatch(s: string, i: nat): (r: Option<PrMatch>)
    requires i <= |s|
    ensures r.Some? ==> i <= r.value.i && BitbucketPrAt(s, r.value.i, r.value.j, r.value.k)
    ensures forall i', j, k :: i <= i' && BitbucketPrAt(s, i', j, k) ==> r.Some? && r.value.i <= i'
    ensures r.Some? ==> PrMatchAt(s, r.value.i) == r
    decreases |s| - i
  {
    match PrMatchAt(s, i)
    case Some(x) => Some(x)
    case None => if i == |s| then None else FirstPrMatch(s, i + 1)
  }

  /** `Number(groups.pullRequestNo)` of the leftmost match, if the message matches. */
  function BitbucketPrNumber(message: string): Option<nat> {
    match FirstPrMatch(message, 0)
    case None => None
    case Some(x) => Some(DigitsValue(message[x.j + 16..x.k]))
  }

  /**
    A number is captured exactly when the Bitbucket pattern matches, and it
    is the digit run of the match the regular expression engine reports: the
    leftmost one, and among those starting there the one whose greedy branch
    capture reaches the last possible ` (pull request #`.
  */
  lemma BitbucketPrNumberSpec(message: string)
    ensures BitbucketPrNumber(message).Some? <==> BitbucketPr(message)
    ensures BitbucketPrNumber(message).Some? ==>
      exists i, j, k :: && BitbucketPrAt(message, i, j, k)
                        && BitbucketPrNumber(message).value == DigitsValue(message[j + 16..k])
                        && Preferred(message, i, j)
  {
    match FirstPrMatch(message, 0)
    case None =>
    case Some(x) =>
      FirstPrMatchPreferred(message, x);
      assert BitbucketPrAt(message, x.i, x.j, x.k) && Preferred(message, x.i, x.j);
  }

  /** No match starts before `i`, and none starting at `i` reaches an opening after `j`. */
  ghost predicate Preferred(s: string, i: nat, j: nat) {
    forall i', j', k' :: BitbucketPrAt(s, i', j', k') ==> i <= i' && (i' == i ==> j' <= j)
  }

  /** The reported match starts no later than any match, and reaches furthest among those starting with it. */
  lemma FirstPrMatchPreferred(s: string, x: PrMatch)
    requires FirstPrMatch(s, 0) == Some(x)
    ensures Preferred(s, x.i, x.j)
  {
    forall i', j', k' | BitbucketPrAt(s, i', j', k')
      ensures x.i <= i' && (i' == x.i ==> j' <= x.j)
    {
      if i' == x.i {
        assert PrMatchAt(s, x.i) == Some(x);
      }
    }
  }

  /**
    `pullRequestNo`: `null` for a commit that is not a pull request and for
    every provider but Bitbucket; for Bitbucket the captured number, and a
    thrown `TypeError` when the message does not match.
  */
  function PullRequestNo(c: Commit): (r: Result<Option<nat>>)
    ensures !c.isPullRequest || c.provider != Some(Bitbucket) ==> r == Ok(None)
    ensures c.isPullRequest && c.provider == Some(Bitbucket) ==>
      (r.Ok? <==> BitbucketPr(c.message)) && (r.Ok? ==> r.value.Some? && r.value == BitbucketPrNumber(c.message))
  {
    BitbucketPrNumberSpec(c.message);
    if !c.isPullRequest then Ok(None)
    else if c.provider == Some(Bitbucket) then
      match BitbucketPrNumber(c.message)
      case None => Err("Cannot destructure property 'pullRequestNo' of undefined")
      case Some(n) => Ok(Some(n))
    else Ok(None)
  }

  /** No second ` (pull request #` can start inside the first one or after it, when no space follows it. */
  lemma NoLaterOpening(s: string, j0: int)
    requires OccursAt(s, " (pull request #", j0)
    requires forall m :: j0 + 16 <= m < |s| ==> s[m] != ' '
    ensures forall q :: j0 < q <= |s| ==> !OccursAt(s, " (pull request #", q)
  {
    var pat := " (pull request #";
    var rest := "pull request #";
    assert pat == " (" + rest;
    assert '(' !in rest;
    forall q | j0 < q <= |s| ensures !OccursAt(s, pat, q) {
      if q < j0 + 15 && q + 16 <= |s| {
        assert s[q..q + 16][1] == s[q + 1] == rest[q - j0 - 1];
      } else if q == j0 + 15 && q + 16 <= |s| {
        assert s[q..q + 16][0] == s[q] == pat[15];
      } else if q + 16 <= |s| {
        assert s[q..q + 16][0] == s[q];
      }
    }
  }

  /** Where the pieces of `Merged in {branch} (pull request #{n})` sit. */
  lemma PrSubjectLayout(branch: string, n: nat)
    requires branch != "" && forall m :: 0 <= m < |branch| ==> !IsLineTerminator(branch[m])
    ensures var s := "Merged in " + branch + " (pull request #" + NatToString(n) + ")";
      var j0, k0 := 10 + |branch|, 26 + |branch| + |NatToString(n)|;
      && k0 + 1 == |s|
      && BitbucketPrAt(s, 0, j0, k0)
      && (forall m :: j0 + 16 <= m < |s| ==> s[m] != ' ')
      && s[j0 + 16..k0] == NatToString(n)
  {
    var d := NatToString(n);
    var p1 := "Merged in " + branch;
    var p2 := p1 + " (pull request #";
    var p3 := p2 + d;
    var s := p3 + ")";
    var j0, k0 := |p1|, |p3|;
    assert s[..10] == "Merged in " by { assert s[..10] == p3[..10] == p2[..10] == p1[..10]; }
    forall m | 10 <= m < j0 ensures !IsLineTerminator(s[m]) {
      assert s[m] == p3[m] == p2[m] == p1[m] == branch[m - 10];
    }
    assert s[j0..j0 + 16] == " (pull request #" by {
      assert s[j0..j0 + 16] == p3[j0..j0 + 16] == p2[j0..];
    }
    forall m | j0 + 16 <= m < k0 ensures IsDigit(s[m]) {
      assert s[m] == p3[m] == d[m - j0 - 16];
    }
    assert s[j0 + 16..k0] == d by { assert s[j0 + 16..k0] == p3[j0 + 16..]; }
    assert s == "Merged in " + branch + " (pull request #" + NatToString(n) + ")";
  }

  /**
    A Bitbucket merge subject of the usual form `Merged in {branch} (pull
    request #{n})` yields the number written in it, whatever the branch name.
  */
  lemma BitbucketSubjectNumber(branch: string, n: nat)
    requires branch != "" && forall m :: 0 <= m < |branch| ==> !IsLineTerminator(branch[m])
    ensures BitbucketPrNumber("Merged in " + branch + " (pull request #" + NatToString(n) + ")") == Some(n)
  {
    var s := "Merged in " + branch + " (pull request #" + NatToString(n) + ")";
    var j0, k0 := 10 + |branch|, 26 + |branch| + |NatToString(n)|;
    PrSubjectLayout(branch, n);
    NoLaterOpening(s, j0);
    assert PrMatchAt(s, 0).Some?;
    assert FirstPrMatch(s, 0) == PrMatchAt(s, 0);
    var x := PrMatchAt(s, 0).value;
    assert j0 <= x.j;
    assert OccursAt(s, " (pull request #", x.j);
    assert x.j == j0;
    assert x.k == k0;
  }

  // ---------------------------------------------------------------------------
  // Rendering

  /** ``[`{hash}`]({commitUrl})``: the link text is kept even when the URL is empty. */
  function CommitLink(hash: string, provider: Option<Provider>, repo: Option<string>): (r: string)
    ensures StartsWith(r, "[`" + hash + "`](") && r[|r| - 1] == ')'
  {
    var r := "[`" + hash + "`](" + CommitUrl(hash, provider, repo) + ")";
    assert r[..|"[`" + hash + "`]("|] == "[`" + hash + "`](";
    r
  }

  /** `commitEntry(repositoryUrl)`: ``- {message} ([`{hash}`]({url}))``. */
  function CommitEntry(c: Commit, repo: Option<string>): (r: string)
    ensures StartsWith(r, "- " + c.message + " (") && r[|r| - 1] == ')'
  {
    var r := "- " + c.message + " (" + CommitLink(c.hash, c.provider, repo) + ")";
    assert r[..|"- " + c.message + " ("|] == "- " + c.message + " (";
    r
  }

  /** The links to the folded-in commits, each hash cut to its first 7 characters; none for `null`. */
  function SquashedLinks(c: Commit, repo: Option<string>): (r: seq<string>)
    ensures |r| == |c.commits.GetOr([])|
    ensures forall n :: 0 <= n < |r| ==> r[n] == CommitLink(Take(c.commits.GetOr([])[n], 7), c.provider, repo)
  {
    Map(c.commits.GetOr([]), (h: string) => CommitLink(Take(h, 7), c.provider, repo))
  }

  /** The ` ([#N](url))` part, present only when the pull-request URL is not empty. */
  function PrLink(no: Option<nat>, provider: Option<Provider>, repo: Option<string>): (r: string)
    ensures r != "" <==> PullRequestUrl(no, provider, repo) != ""
    ensures r != "" ==> r == " ([#" + NatToString(no.value) + "](" + PullRequestUrl(no, provider, repo) + "))"
  {
    var url := PullRequestUrl(no, provider, repo);
    if url != "" then " ([#" + NatToString(no.value) + "](" + url + "))" else ""
  }

  /**
    `pullRequestEntry(repositoryUrl)`: the body (the message for a commit that
    is not a pull request), the optional pull-request link, then the squashed
    commit links joined by `, ` in parentheses.
  */
  function PullRequestEntry(c: Commit, repo: Option<string>): (r: Result<string>)
    ensures r.Err? <==> PullRequestNo(c).Err?
    ensures r.Ok? ==>
      r.value == "- " + (if c.isPullRequest then c.body else c.message)
        + PrLink(PullRequestNo(c).value, c.provider, repo) + " (" + Join(SquashedLinks(c, repo), ", ") + ")"
  {
    match PullRequestNo(c)
    case Err(e) => Err(e)
    case Ok(no) =>
      var text := if c.isPullRequest then c.body else c.message;
      Ok("- " + text + PrLink(no, c.provider, repo) + " (" + Join(SquashedLinks(c, repo), ", ") + ")")
  }

  /** `toChangelogEntry(repositoryUrl)`: the pull-request form exactly for pull requests. */
  function ToChangelogEntry(c: Commit, repo: Option<string>): (r: Result<string>)
    ensures c.isPullRequest ==> r == PullRequestEntry(c, repo)
    ensures !c.isPullRequest ==> r == Ok(CommitEntry(c, repo))
  {
    if c.isPullRequest then PullRequestEntry(c, repo) else Ok(CommitEntry(c, repo))
  }

  /**
    Only Bitbucket pull requests can carry a link to the pull request: for any
    other provider the number is `null`, so the URL and the link are empty.
  */
  lemma PrLinkOnlyForBitbucket(c: Commit, repo: Option<string>)
    requires c.isPullRequest && c.provider != Some(Bitbucket)
    ensures PullRequestEntry(c, repo) == Ok("- " + c.body + " (" + Join(SquashedLinks(c, repo), ", ") + ")")
  {
    assert PullRequestNo(c) == Ok(None);
    assert PrLink(None, c.provider, repo) == "";
    assert "- " + c.body + "" == "- " + c.body;
  }

  /** A pull request whose `commits` is `null` ends in `()`. */
  lemma NoSquashedCommits(c: Commit, repo: Option<string>)
    requires c.commits.None? && PullRequestEntry(c, repo).Ok?
    ensures EndsWith(PullRequestEntry(c, repo).value, " ()")
  {
    var r := PullRequestEntry(c, repo).value;
    assert SquashedLinks(c, repo) == [];
    assert r[|r| - 3..] == " ()";
  }

  /** A Bitbucket pull request with a repository URL links to its pull request by number. */
  lemma BitbucketPrLinked(c: Commit, repo: Option<string>, n: nat)
    requires c.isPullRequest && c.provider == Some(Bitbucket) && Present(repo)
    requires BitbucketPrNumber(c.message) == Some(n) && n != 0
    ensures PullRequestEntry(c, repo).Ok?
    ensures var url := repo.value + "/pull-requests/" + NatToString(n);
      PrLink(PullRequestNo(c).value, c.provider, repo) == " ([#" + NatToString(n) + "](" + url + "))"
  {
    assert PullRequestNo(c) == Ok(Some(n));
  }
}
