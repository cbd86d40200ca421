/**
  The pure parts of the git front end: turning a commit range into a
  `from..to` argument, rejecting an upper bound without a lower one,
  normalising one pretty-log record, re-deriving merge records, picking the
  remote URL out of `git remote -v` and cutting a tag's hash. The output of
  the git commands themselves is taken as input.
*/
module GitCommands {
  import opened Base
  import opened Types
  import opened Config
  import opened GitRepository

  /**
    A commit range `[from, to]`. An element that the array does not have is
    `Undefined`, so the empty range is `Range(Undefined, Undefined)`.
  */
  datatype Range = Range(from: Nullable, to: Nullable)

  /** How a template literal renders a `string | null | undefined`. */
  function Text(v: Nullable): string {
    match v
    case Undefined => "undefined"
    case Null => "null"
    case Str(s) => s
  }

  /**
    `Git.rangeToOption(range)`: nothing without a truthy lower bound,
    otherwise `from..to`, where only a missing upper bound becomes `HEAD`.
  */
  function RangeToOption(range: Range): (r: string)
    ensures r == "" <==> !Truthy(range.from)
    ensures Truthy(range.from) && range.to.Undefined? ==> r == range.from.s + "..HEAD"
    ensures Truthy(range.from) && range.to.Null? ==> r == range.from.s + "..null"
    ensures Truthy(range.from) && range.to.Str? ==> r == range.from.s + ".." + range.to.s
  {
    if !Truthy(range.from) then ""
    else range.from.s + ".." + (if range.to.Undefined? then "HEAD" else Text(range.to))
  }

  function UpperAscii(c: char): char {
    if 'a' <= c <= 'z' then (c as int - 32) as char else c
  }

  /** `s.toUpperCase() === 'HEAD'`: only the four letters, each in either case, can give `HEAD`. */
  predicate IsHead(s: string) {
    |s| == 4 && UpperAscii(s[0]) == 'H' && UpperAscii(s[1]) == 'E' && UpperAscii(s[2]) == 'A' && UpperAscii(s[3]) == 'D'
  }

  /** The guard of `mergesLog`: an upper bound other than `HEAD` needs a lower bound. */
  predicate RangeRejected(range: Range) {
    Truthy(range.to) && !IsHead(range.to.s) && !Truthy(range.from)
  }

  /**
    The guard passes every range whose upper bound upper-cases to `HEAD` or is
    missing, and rejects every other non-empty upper bound without a truthy
    lower bound.
  */
  lemma HeadRangesAccepted(from: Nullable, to: string)
    ensures Map(to, UpperAscii) == "HEAD" ==> !RangeRejected(Range(from, Str(to)))
    ensures to != "" && Map(to, UpperAscii) != "HEAD" && !Truthy(from) ==> RangeRejected(Range(from, Str(to)))
    ensures !RangeRejected(Range(from, Undefined)) && !RangeRejected(Range(from, Null))
  {
    HeadIsUpperCased(to);
  }

  /** `IsHead` is exactly "upper-cases to `HEAD`". */
  lemma HeadIsUpperCased(s: string)
    ensures IsHead(s) <==> Map(s, UpperAscii) == "HEAD"
  {
    var u := Map(s, UpperAscii);
    if u == "HEAD" {
      assert u[0] == 'H' && u[1] == 'E' && u[2] == 'A' && u[3] == 'D';
    }
    if IsHead(s) {
      assert |u| == 4 && u[0] == 'H' && u[1] == 'E' && u[2] == 'A' && u[3] == 'D';
    }
  }

  // ---------------------------------------------------------------------------
  // One pretty-log record

  /** The record as `git log --pretty=format:` writes it, once read as JSON. */
  datatype RawEntry = RawEntry(
    hash: string,
    authorName: string,
    authorEmail: string,
    date: string,
    message: string,
    body: string,
    refs: string,
    parentHashes: string)

  predicate NonEmpty(s: string) {
    s != ""
  }

  /** `text.split(sep).map(trim).filter(Boolean)` */
  function SplitTrimmed(text: string, sep: char): (r: seq<string>)
    ensures forall x :: x in r <==> x != "" && x in Map(Split(text, sep), Trim)
    ensures IsSubsequence(r, Map(Split(text, sep), Trim))
    ensures forall x :: multiset(r)[x] == if x != "" then multiset(Map(Split(text, sep), Trim))[x] else 0
  {
    FilterSpec(Map(Split(text, sep), Trim), NonEmpty);
    FilterMultiset(Map(Split(text, sep), Trim), NonEmpty);
    Filter(Map(Split(text, sep), Trim), NonEmpty)
  }

  /** The first element that starts with `prefix`. */
  function FirstStartingWith(xs: seq<string>, prefix: string): (r: Option<nat>)
    ensures r.Some? ==> r.value < |xs| && StartsWith(xs[r.value], prefix)
    ensures r.Some? ==> forall j :: 0 <= j < r.value ==> !StartsWith(xs[j], prefix)
    ensures r.None? ==> forall j :: 0 <= j < |xs| ==> !StartsWith(xs[j], prefix)
  {
    if |xs| == 0 then None
    else if StartsWith(xs[0], prefix) then Some(0)
    else match FirstStartingWith(xs[1..], prefix)
      case None => None
      case Some(k) => Some(k + 1)
  }

  /** The branch of a record: the first `origin/` ref without that prefix, else `null`. */
  function BranchOf(refs: seq<string>): (r: Option<string>)
    ensures r.None? <==> forall j :: 0 <= j < |refs| ==> !StartsWith(refs[j], "origin/")
    ensures r.Some? ==>
      exists j :: 0 <= j < |refs| && refs[j] == "origin/" + r.value && (forall i :: 0 <= i < j ==> !StartsWith(refs[i], "origin/"))
  {
    match FirstStartingWith(refs, "origin/")
    case None => None
    case Some(j) =>
      var rest := refs[j][7..];
      assert refs[j] == "origin/" + rest;
      ReplaceFirstAtStart("origin/", rest);
      Some(ReplaceFirst(refs[j], "origin/", ""))
  }

  /**
    The arguments `revList` is called with: the first parent (the text
    `undefined` if there is none) and the second parent, `HEAD` by default.
  */
  function RevListArgs(parents: seq<string>): (string, string) {
    (if |parents| >= 1 then parents[0] else "undefined",
     if |parents| >= 2 then parents[1] else "HEAD")
  }

  /** The output lines of `git rev-list since..head` for those arguments. */
  function RevListed(revList: (string, string) -> seq<string>, parents: seq<string>): seq<string> {
    revList(RevListArgs(parents).0, RevListArgs(parents).1)
  }

  /** `revList` output cut to 7-character hashes. */
  function ShortHashes(hashes: seq<string>): (r: seq<string>)
    ensures |r| == |hashes| && forall i :: 0 <= i < |r| ==> StartsWith(hashes[i], r[i]) && |r[i]| <= 7
    ensures forall i :: 0 <= i < |r| ==> |r[i]| == if |hashes[i]| < 7 then |hashes[i]| else 7
  {
    Map(hashes, (h: string) => Take(h, 7))
  }

  /**
    The `prettyLog` callback for one record. `revList` stands for the output
    lines of `git rev-list since..head`.
  */
  function PrettyLogEntry(e: RawEntry, provider: Option<Provider>, revList: (string, string) -> seq<string>): (r: GitLog)
    ensures r.hash == e.hash && r.message == e.message && r.body == Trim(e.body)
    ensures r.refs == SplitTrimmed(e.refs, ',') && r.parentHashes == SplitTrimmed(e.parentHashes, ' ')
    ensures r.branch == BranchOf(r.refs)
    ensures r.isPullRequest == Some(IsPullRequestMessage(provider, e.message))
    ensures r.commits.Some? <==> IsPullRequestMessage(provider, e.message)
    ensures r.commits.Some? ==> r.commits.value == ShortHashes(RevListed(revList, r.parentHashes))
  {
    var refs := SplitTrimmed(e.refs, ',');
    var parents := SplitTrimmed(e.parentHashes, ' ');
    var isPr := IsPullRequestMessage(provider, e.message);
    GitLog(
      hash := e.hash,
      authorName := e.authorName,
      authorEmail := e.authorEmail,
      date := e.date,
      message := e.message,
      body := Trim(e.body),
      refs := refs,
      parentHashes := parents,
      branch := BranchOf(refs),
      isPullRequest := Some(isPr),
      commits := if isPr then Some(ShortHashes(RevListed(revList, parents))) else None)
  }

  /** `prettyLog`: every record normalised, in order. */
  function PrettyLog(entries: seq<RawEntry>, provider: Option<Provider>, revList: (string, string) -> seq<string>): (r: seq<GitLog>)
    ensures |r| == |entries| && forall i :: 0 <= i < |r| ==> r[i] == PrettyLogEntry(entries[i], provider, revList)
  {
    Map(entries, (e: RawEntry) => PrettyLogEntry(e, provider, revList))
  }

  /** The `mergesLog` callback: `isPullRequest` recomputed, `commits` set for every merge. */
  function MergeEntry(log: GitLog, provider: Option<Provider>, revList: (string, string) -> seq<string>): (r: GitLog)
    ensures r.isPullRequest == Some(IsPullRequestMessage(provider, log.message))
    ensures r.commits == Some(ShortHashes(RevListed(revList, log.parentHashes)))
    ensures r.(isPullRequest := log.isPullRequest, commits := log.commits) == log
  {
    log.(isPullRequest := Some(IsPullRequestMessage(provider, log.message)),
         commits := Some(ShortHashes(RevListed(revList, log.parentHashes))))
  }

  /**
    `mergesLog({ range })`: the guard first, then the merge records with
    their `commits` always present.
  */
  function MergesLog(range: Range, merges: seq<RawEntry>, provider: Option<Provider>,
                     revList: (string, string) -> seq<string>): (r: Result<seq<GitLog>>)
    ensures r.Err? <==> RangeRejected(range)
    ensures r.Ok? ==> |r.value| == |merges|
    ensures r.Ok? ==> forall i :: 0 <= i < |merges| ==> r.value[i] == MergeEntry(PrettyLogEntry(merges[i], provider, revList), provider, revList)
  {
    if RangeRejected(range) then Err("fromCommit is required when toCommit is set")
    else Ok(Map(PrettyLog(merges, provider, revList), (log: GitLog) => MergeEntry(log, provider, revList)))
  }

  /**
    Recomputing the flag in `mergesLog` changes nothing: it is the value
    `prettyLog` already gave, and for pull requests so is `commits`; only the
    merges that are not pull requests gain a `commits` list.
  */
  lemma MergeEntryAgrees(e: RawEntry, provider: Option<Provider>, revList: (string, string) -> seq<string>)
    ensures var log := PrettyLogEntry(e, provider, revList);
      && MergeEntry(log, provider, revList).isPullRequest == log.isPullRequest
      && (log.isPullRequest == Some(true) ==> MergeEntry(log, provider, revList) == log)
      && (log.isPullRequest == Some(false) ==> log.commits.None? && MergeEntry(log, provider, revList).commits.Some?)
  {
  }

  // ---------------------------------------------------------------------------
  // remote, tag2Hash

  /**
    The line picking in `remote`: the first line of `git remote -v` that starts
    with the configured remote name (the text `undefined` when none is
    configured), then the text between its first tab and the next space.
    `None` when there is no such line or that text is empty.
  */
  function RemoteField(stdout: string, remoteName: Nullable): (r: Option<string>)
    ensures r.Some? ==> r.value != "" && ' ' !in r.value && '\t' !in r.value
    ensures r.Some? ==> exists j :: 0 <= j < |Split(stdout, '\n')| && StartsWith(Split(stdout, '\n')[j], Text(remoteName))
    ensures var lines := Split(stdout, '\n');
      var j := FirstStartingWith(lines, Text(remoteName));
      && (r.Some? <==> j.Some? && |Split(lines[j.value], '\t')| >= 2 && Split(Split(lines[j.value], '\t')[1], ' ')[0] != "")
      && (r.Some? ==> r.value == Split(Split(lines[j.value], '\t')[1], ' ')[0])
  {
    var lines := Split(stdout, '\n');
    match FirstStartingWith(lines, Text(remoteName))
    case None => None
    case Some(j) =>
      var cols := Split(lines[j], '\t');
      if |cols| < 2 then None
      else
        var url := Split(cols[1], ' ')[0];
        SplitPiecesHaveNoSep(lines[j], '\t');
        SplitPiecesHaveNoSep(cols[1], ' ');
        assert cols[1] in cols;
        assert Split(cols[1], ' ')[0] in Split(cols[1], ' ');
        if url == "" then None else
          assert '\t' !in url by {
            if '\t' in url {
              var k :| 0 <= k < |url| && url[k] == '\t';
              SplitPrefixOf(cols[1], ' ', k);
            }
          }
          Some(url)
  }

  /** The first piece of a split is a prefix of the text, so a character of it is a character of the text. */
  lemma {:induction false} SplitPrefixOf(s: string, sep: char, k: nat)
    requires k < |Split(s, sep)[0]|
    ensures k < |s| && Split(s, sep)[0][k] == s[k]
    decreases |s|
  {
    if |s| > 0 && s[0] != sep && k > 0 {
      SplitPrefixOf(s[1..], sep, k - 1);
    }
  }

  /** `remote()`: the picked URL normalised by `toRepoUrl` without a provider. */
  function Remote(stdout: string, remoteName: Nullable): (r: Option<string>)
    ensures RemoteField(stdout, remoteName).None? ==> r.None?
    ensures RemoteField(stdout, remoteName).Some? ==> r == ToRepoUrl(RemoteField(stdout, remoteName).value, None)
  {
    match RemoteField(stdout, remoteName)
    case None => None
    case Some(url) => ToRepoUrl(url, None)
  }

  /**
    When the first line of `git remote -v` is the named remote's fetch line,
    `remote()` gives that line's URL through `toRepoUrl`.
  */
  lemma RemoteOfFetchLine(name: string, url: string, more: string)
    requires '\n' !in name && '\t' !in name
    requires url != "" && '\n' !in url && '\t' !in url && ' ' !in url
    ensures Remote(name + "\t" + url + " (fetch)\n" + more, Str(name)) == ToRepoUrl(url, None)
  {
    var line := name + "\t" + url + " (fetch)";
    var lines := Split(name + "\t" + url + " (fetch)\n" + more, '\n');
    FetchLineFirst(name + "\t" + url, more);
    FetchLineField(name, url);
    assert StartsWith(lines[0], name) by { assert line[..|name|] == name; }
    assert FirstStartingWith(lines, Text(Str(name))) == Some(0);
  }

  /** The fetch line is the first line of the output. */
  lemma FetchLineFirst(line: string, more: string)
    requires '\n' !in line
    ensures Split(line + " (fetch)\n" + more, '\n')[0] == line + " (fetch)"
  {
    assert line + " (fetch)\n" + more == (line + " (fetch)") + ['\n'] + more;
    SplitCons(line + " (fetch)", more, '\n');
  }

  /** The text between the fetch line's tab and the next space is its URL. */
  lemma FetchLineField(name: string, url: string)
    requires '\t' !in name
    requires '\t' !in url && ' ' !in url
    ensures var cols := Split(name + "\t" + url + " (fetch)", '\t');
      |cols| >= 2 && Split(cols[1], ' ')[0] == url
  {
    var tail := url + " (fetch)";
    assert " (fetch)" == [' '] + "(fetch)";
    assert tail == url + [' '] + "(fetch)";
    assert '\t' !in tail;
    assert name + "\t" + url + " (fetch)" == name + ['\t'] + tail;
    SplitCons(name, tail, '\t');
    SplitNoSep(tail, '\t');
    SplitCons(url, "(fetch)", ' ');
  }

  /** `tag2Hash(version, fullHash)`: `null` for empty output, else the output or its first 7 characters. */
  function Tag2Hash(stdout: string, fullHash: bool): (r: Option<string>)
    ensures r.None? <==> stdout == ""
    ensures r.Some? ==> StartsWith(stdout, r.value) && (fullHash ==> r.value == stdout)
    ensures r.Some? && !fullHash ==> |r.value| == if |stdout| < 7 then |stdout| else 7
  {
    if stdout == "" then None else Some(if fullHash then stdout else Take(stdout, 7))
  }

  // ---------------------------------------------------------------------------
  // The Git object

  /** The fields `load()` fills in on a `Git` object. */
  class Git {
    const config: Types.Config
    var repositoryUrl: Option<string>
    var currentBranch: string
    var provider: Option<Provider>

    constructor (config: Types.Config)
      ensures this.config == config
      ensures repositoryUrl.None? && currentBranch == "" && provider.None?
    {
      this.config := config;
      repositoryUrl := None;
      currentBranch := "";
      provider := None;
    }

    /**
      `load()`: the package's repository URL, or else the remote's; the
      trimmed current branch; the configured provider, or else the one guessed
      from the repository URL.
    */
    method Load(packageUrl: Option<string>, remoteStdout: string, remoteName: Nullable, branchStdout: string)
      modifies this
      ensures repositoryUrl == if packageUrl.Some? then packageUrl else Remote(remoteStdout, remoteName)
      ensures currentBranch == Trim(branchStdout)
      ensures provider == if config.provider.Some? then config.provider else GuessProvider(repositoryUrl.GetOr(""))
    {
      if packageUrl.Some? {
        repositoryUrl := packageUrl;
      } else {
        repositoryUrl := Remote(remoteStdout, remoteName);
      }
      currentBranch := Trim(branchStdout);
      if config.provider.Some? {
        provider := config.provider;
      } else {
        provider := GuessProvider(repositoryUrl.GetOr(""));
      }
    }
  }
}
