/**
  The command's main flow: load the changelog, work out the commit range,
  read the merge commits and the log of that range, keep the commits that
  belong in the new section, write them, and on any error remove a changelog
  that holds nothing but the placeholder before passing the error on.
*/
module Pipeline {
  import opened Base
  import opened Types
  import opened Config
  import opened Versions
  import opened GitRepository
  import opened GitCommands
  import opened Commits
  import opened ChangelogFile

  // ---------------------------------------------------------------------------
  // The range

  /**
    `[fromCommit ?? changelog.latestCommit, toCommit ?? 'HEAD']`: a flag given
    as the empty string is kept (`??` only replaces a missing value).
  */
  function MakeRange(fromCommit: Option<string>, latestCommit: Nullable, toCommit: Option<string>): (r: Range)
    ensures fromCommit.Some? ==> r.from == Str(fromCommit.value)
    ensures fromCommit.None? ==> r.from == latestCommit
    ensures r.to.Str? && (toCommit.None? ==> r.to.s == "HEAD")
    ensures toCommit.Some? ==> r.to == Str(toCommit.value)
    ensures RangeRejected(r) <==>
      toCommit.Some? && toCommit.value != "" && !IsHead(toCommit.value) && !Truthy(r.from)
  {
    Range(if fromCommit.Some? then Str(fromCommit.value) else latestCommit, Str(toCommit.GetOr("HEAD")))
  }

  /**
    Without `--toCommit` the range always passes the guard of `mergesLog`;
    with one that is not `HEAD`, a changelog without a previous release (whose
    latest commit is `null`) needs `--fromCommit`.
  */
  lemma RangeGuard(fromCommit: Option<string>, latestCommit: Nullable, toCommit: Option<string>)
    ensures toCommit.None? ==> !RangeRejected(MakeRange(fromCommit, latestCommit, toCommit))
    ensures fromCommit.None? && latestCommit.Null? && toCommit.Some? && toCommit.value != "" && !IsHead(toCommit.value)
      ==> RangeRejected(MakeRange(fromCommit, latestCommit, toCommit))
  {
    assert IsHead("HEAD");
  }

  // ---------------------------------------------------------------------------
  // Selecting the commits

  /** `log.isPullRequest` used as a condition. */
  predicate IsPr(log: GitLog) {
    log.isPullRequest == Some(true)
  }

  /** The hashes of the merge commits that are not pull-request merges. */
  function NonPrMergeHashes(merges: seq<GitLog>): (r: seq<string>)
    ensures forall h :: h in r <==> exists i :: 0 <= i < |merges| && !IsPr(merges[i]) && merges[i].hash == h
  {
    if |merges| == 0 then []
    else
      var rest := NonPrMergeHashes(merges[1..]);
      assert forall i :: 1 <= i < |merges| ==> merges[i] == merges[1..][i - 1];
      assert forall i :: 0 <= i < |merges| - 1 ==> merges[1..][i] == merges[i + 1];
      (if IsPr(merges[0]) then [] else [merges[0].hash]) + rest
  }

  /** The commits that pull-request merges brought in (`flatMap` over their `commits`). */
  function MergedHashes(merges: seq<GitLog>): (r: seq<string>)
    ensures forall h :: h in r <==>
      exists i :: 0 <= i < |merges| && IsPr(merges[i]) && h in merges[i].commits.GetOr([])
  {
    if |merges| == 0 then []
    else
      var rest := MergedHashes(merges[1..]);
      assert forall i :: 1 <= i < |merges| ==> merges[i] == merges[1..][i - 1];
      assert forall i :: 0 <= i < |merges| - 1 ==> merges[1..][i] == merges[i + 1];
      (if IsPr(merges[0]) then merges[0].commits.GetOr([]) else []) + rest
  }

  /**
    The logs that go into the changelog: drop the non-pull-request merges;
    then keep only pull requests (`pullRequestOnly`), or else drop every commit
    a pull request brought in.
  */
  function SelectCommits(logs: seq<GitLog>, merges: seq<GitLog>, pullRequestOnly: bool): seq<GitLog> {
    var nonPr := NonPrMergeHashes(merges);
    var kept := Filter(logs, (log: GitLog) => log.hash !in nonPr);
    if pullRequestOnly then Filter(kept, IsPr)
    else
      var merged := MergedHashes(merges);
      Filter(kept, (log: GitLog) => log.hash !in merged)
  }

  /** Which logs a commit is kept by: exactly as the two filters in a row say. */
  predicate Selected(log: GitLog, merges: seq<GitLog>, pullRequestOnly: bool) {
    && log.hash !in NonPrMergeHashes(merges)
    && (if pullRequestOnly then IsPr(log) else log.hash !in MergedHashes(merges))
  }

  /**
    The selection keeps the log's order, and keeps a log exactly when no plain
    merge has its hash and it is a pull request (`pullRequestOnly`) or no pull
    request brought it in.
  */
  lemma SelectionSpec(logs: seq<GitLog>, merges: seq<GitLog>, pullRequestOnly: bool)
    ensures IsSubsequence(SelectCommits(logs, merges, pullRequestOnly), logs)
    ensures forall log :: log in SelectCommits(logs, merges, pullRequestOnly) <==>
      log in logs && Selected(log, merges, pullRequestOnly)
  {
    var nonPr := NonPrMergeHashes(merges);
    var merged := MergedHashes(merges);
    var first := (log: GitLog) => log.hash !in nonPr;
    var second := if pullRequestOnly then IsPr else (log: GitLog) => log.hash !in merged;
    var both := (log: GitLog) => first(log) && second(log);
    assert SelectCommits(logs, merges, pullRequestOnly) == Filter(Filter(logs, first), second);
    FilterFilter(logs, first, second, both);
    FilterSpec(logs, both);
  }

  /** A merge commit that is not a pull request never reaches the changelog. */
  lemma PlainMergesLeftOut(logs: seq<GitLog>, merges: seq<GitLog>, pullRequestOnly: bool, i: nat)
    requires i < |merges| && !IsPr(merges[i])
    ensures forall log :: log in SelectCommits(logs, merges, pullRequestOnly) ==> log.hash != merges[i].hash
  {
    SelectionSpec(logs, merges, pullRequestOnly);
  }

  /** Without `pullRequestOnly`, a commit a pull request brought in is listed only through that pull request. */
  lemma SquashedCommitsLeftOut(logs: seq<GitLog>, merges: seq<GitLog>, i: nat, h: string)
    requires i < |merges| && IsPr(merges[i]) && h in merges[i].commits.GetOr([])
    ensures forall log :: log in SelectCommits(logs, merges, false) ==> log.hash != h
  {
    SelectionSpec(logs, merges, false);
  }

  /** The changelog's commits: the selected logs as `Commit`s of the repository's provider. */
  function PipelineCommits(logs: seq<GitLog>, merges: seq<GitLog>, pullRequestOnly: bool, provider: Option<Provider>): (r: seq<Commit>)
    ensures |r| == |SelectCommits(logs, merges, pullRequestOnly)|
    ensures forall i :: 0 <= i < |r| ==> r[i] == NewCommit(SelectCommits(logs, merges, pullRequestOnly)[i], provider)
  {
    Map(SelectCommits(logs, merges, pullRequestOnly), (log: GitLog) => NewCommit(log, provider))
  }

  /**
    A commit made from a log entry renders as a changelog entry when it is
    given the provider the entry was read with: a Bitbucket pull request was
    recognised by the same message test that reads its number.
  */
  lemma LogEntryRenders(e: RawEntry, provider: Option<Provider>, revList: (string, string) -> seq<string>, repo: Option<string>)
    ensures ToChangelogEntry(NewCommit(PrettyLogEntry(e, provider, revList), provider), repo).Ok?
  {
    var c := NewCommit(PrettyLogEntry(e, provider, revList), provider);
    assert c.isPullRequest ==> IsPullRequestMessage(provider, e.message);
    if c.isPullRequest && provider == Some(Bitbucket) {
      assert BitbucketPr(c.message);
    }
  }

  /** Every commit the pipeline selects renders, so `writeChanges` never fails on its entries. */
  lemma PipelineEntriesRender(entries: seq<RawEntry>, merges: seq<GitLog>, pullRequestOnly: bool,
                              provider: Option<Provider>, revList: (string, string) -> seq<string>,
                              repo: Option<string>)
    ensures Entries(PipelineCommits(PrettyLog(entries, provider, revList), merges, pullRequestOnly, provider), repo).Ok?
  {
    var commits := PipelineCommits(PrettyLog(entries, provider, revList), merges, pullRequestOnly, provider);
    SelectedRender(entries, merges, pullRequestOnly, provider, revList, repo);
    EntriesRender(commits, repo);
  }

  /** Each selected commit renders on its own. */
  lemma SelectedRender(entries: seq<RawEntry>, merges: seq<GitLog>, pullRequestOnly: bool,
                       provider: Option<Provider>, revList: (string, string) -> seq<string>,
                       repo: Option<string>)
    ensures var commits := PipelineCommits(PrettyLog(entries, provider, revList), merges, pullRequestOnly, provider);
      forall i :: 0 <= i < |commits| ==> ToChangelogEntry(commits[i], repo).Ok?
  {
    var logs := PrettyLog(entries, provider, revList);
    var selected := SelectCommits(logs, merges, pullRequestOnly);
    var commits := PipelineCommits(logs, merges, pullRequestOnly, provider);
    SelectionSpec(logs, merges, pullRequestOnly);
    forall i | 0 <= i < |commits|
      ensures ToChangelogEntry(commits[i], repo).Ok?
    {
      assert selected[i] in logs;
      var j :| 0 <= j < |logs| && logs[j] == selected[i];
      LogEntryRenders(entries[j], provider, revList, repo);
    }
  }

  /** Commits that each render give a rendered list of entries. */
  lemma EntriesRender(commits: seq<Commit>, repo: Option<string>)
    requires forall i :: 0 <= i < |commits| ==> ToChangelogEntry(commits[i], repo).Ok?
    ensures Entries(commits, repo).Ok?
  {
  }

  // ---------------------------------------------------------------------------
  // Clean-up after an error

  /** The `catch` block's test: the changelog is empty or holds only the placeholder. */
  predicate ShouldDelete(fullContent: Option<string>) {
    !Present(fullContent) || Trim(fullContent.value) == Placeholder
  }

  /** A missing or empty changelog, and the placeholder that `writeChanges` leaves, are deleted. */
  lemma PlaceholderDeleted(pad: string)
    requires forall i :: 0 <= i < |pad| ==> IsSpace(pad[i])
    ensures ShouldDelete(None) && ShouldDelete(Some(""))
    ensures ShouldDelete(Some(Placeholder + pad))
  {
    TrimUnchanged(Placeholder);
    assert TrimStart(Placeholder + pad) == Placeholder + pad;
    var e := TrimEnd(Placeholder + pad);
    assert (Placeholder + pad)[|Placeholder| - 1] == '>';
    assert |e| >= |Placeholder|;
  }

  lemma WrittenTextKept(header: string, line: string, rest: string)
    requires |line| > 0 && line[0] == '#'
    ensures !ShouldDelete(Some(header + "\n" + ("\n" + line + "\n\n" + rest)))
  {
    var text := header + "\n" + ("\n" + line + "\n\n" + rest);
    assert text[|header| + 2] == '#';
    NonSpaceSurvivesTrim(text, |header| + 2);
    assert '#' !in Placeholder;
  }

  /** Text that `writeChanges` builds is never taken for an empty changelog. */
  lemma WrittenFileKept(fullContent: Option<string>, rc: RuntimeConfig, repo: Option<string>, commits: seq<Commit>, today: Date)
    requires NewContentOf(fullContent, rc, repo, commits, today).Ok?
    ensures !ShouldDelete(Some(NewContentOf(fullContent, rc, repo, commits, today).value))
  {
    var next := NextVersionOf(fullContent, rc).value;
    var parts := NewSectionParts(fullContent, rc, repo, commits, today);
    var line := VersionLine(next, rc.config, today);
    WrittenText(fullContent, rc, repo, commits, today);
    assert StartsWith(line, HeaderPrefix(rc.config) + next.VersionString());
    assert line[0] == '#';
    WrittenTextKept(rc.config.header, line, Join(parts[2..], "\n\n") + Tail(ContentOf(fullContent)));
  }

  /**
    The `catch` block: delete the changelog when it is empty or only holds the
    placeholder, then rethrow. A failing delete throws its own error instead.
  */
  method Rollback(changelog: Changelog, error: string) returns (outcome: Outcome)
    modifies changelog`file
    ensures outcome.Failed?
    ensures ShouldDelete(changelog.fullContent) ==> changelog.file.None?
    ensures ShouldDelete(changelog.fullContent) && old(changelog.file).Some? ==> outcome == Failed(error)
    ensures !ShouldDelete(changelog.fullContent) ==> changelog.file == old(changelog.file) && outcome == Failed(error)
  {
    if ShouldDelete(changelog.fullContent) {
      var deleted := changelog.Delete();
      if deleted.Failed? {
        outcome := deleted;
        return;
      }
    }
    outcome := Failed(error);
  }

  /**
    The commits of a range: the merge commits (which throws when the range
    is rejected), then the log of the range filtered against them and made
    into `Commit`s of the repository's provider.
  */
  function CollectCommits(range: Range, mergeEntries: seq<RawEntry>, logEntries: seq<RawEntry>, provider: Option<Provider>,
                          revList: (string, string) -> seq<string>, pullRequestOnly: bool): (r: Result<seq<Commit>>)
    ensures r.Err? <==> RangeRejected(range)
    ensures r.Ok? ==> r.value == PipelineCommits(PrettyLog(logEntries, provider, revList),
                                                 MergesLog(range, mergeEntries, provider, revList).value, pullRequestOnly, provider)
  {
    match MergesLog(range, mergeEntries, provider, revList)
    case Err(e) => Err(e)
    case Ok(merges) => Ok(PipelineCommits(PrettyLog(logEntries, provider, revList), merges, pullRequestOnly, provider))
  }

  /** Every commit `CollectCommits` gives renders as a changelog entry. */
  lemma CollectedEntriesRender(range: Range, mergeEntries: seq<RawEntry>, logEntries: seq<RawEntry>, provider: Option<Provider>,
                               revList: (string, string) -> seq<string>, pullRequestOnly: bool, repo: Option<string>)
    requires CollectCommits(range, mergeEntries, logEntries, provider, revList, pullRequestOnly).Ok?
    ensures Entries(CollectCommits(range, mergeEntries, logEntries, provider, revList, pullRequestOnly).value, repo).Ok?
  {
    PipelineEntriesRender(logEntries, MergesLog(range, mergeEntries, provider, revList).value, pullRequestOnly,
                          provider, revList, repo);
  }

  /**
    `writeChanges` inside the `try`: write the new section and reload, rolling
    back on an error. The text written, if any, is the ghost `written`.
  */
  method WriteOrRollback(changelog: Changelog, commits: seq<Commit>, today: Date, versionToCommitHash: string -> Option<string>)
    returns (outcome: Outcome, ghost written: Option<string>)
    requires |commits| > 0 && changelog.file.Some?
    requires PrevVersionOf(changelog.fullContent, changelog.rc.config).Ok? && Entries(commits, changelog.repositoryUrl).Ok?
    modifies changelog
    ensures outcome.Failed? ==> (changelog.file.None? <==> ShouldDelete(changelog.fullContent))
    ensures written.Some? <==> NextVersionOf(old(changelog.fullContent), changelog.rc).Ok?
    ensures written.Some? ==>
      NewContentOf(old(changelog.fullContent), changelog.rc, changelog.repositoryUrl, commits, today) == Ok(written.value)
      && changelog.file == written
    ensures '\n' !in changelog.rc.config.header && '\n' !in changelog.rc.config.versionPrefix ==> outcome.Failed?
  {
    ghost var before := changelog.fullContent;
    ghost var built := NewContentOf(before, changelog.rc, changelog.repositoryUrl, commits, today);
    written := None;
    var wrote := changelog.WriteChanges(commits, today, versionToCommitHash);
    if built.Ok? {
      written := Some(built.value);
      WrittenFileKept(before, changelog.rc, changelog.repositoryUrl, commits, today);
    }
    outcome := Finish(changelog, wrote, written);
  }

  /**
    After `writeChanges`: roll back on its error, and otherwise carry on. A
    file that holds the ghost `kept`, which is not taken for an empty
    changelog, stays as it is.
  */
  method Finish(changelog: Changelog, wrote: Outcome, ghost kept: Option<string>) returns (outcome: Outcome)
    requires changelog.file.Some?
    requires kept.Some? ==> changelog.file == kept && changelog.fullContent == kept && !ShouldDelete(kept)
    modifies changelog`file
    ensures outcome.Failed? <==> wrote.Failed?
    ensures outcome.Failed? ==> (changelog.file.None? <==> ShouldDelete(changelog.fullContent))
    ensures kept.Some? ==> changelog.file == kept
    ensures wrote.Done? ==> changelog.file == old(changelog.file)
  {
    if wrote.Failed? {
      outcome := Rollback(changelog, wrote.message);
    } else {
      outcome := Done;
    }
  }

  /**
    `main` after the configuration is read and git is loaded. The merge
    commits and the log of the range, `git rev-list` and the lookup of a
    release's commit are the parameters standing for the repository; `today`
    is the date of the run. Besides the outcome it gives the commits it
    selected, and as ghosts the range it asked for and the text it wrote.
  */
  method Generate(git: Git, changelog: Changelog, mergeEntries: seq<RawEntry>, logEntries: seq<RawEntry>,
                  revList: (string, string) -> seq<string>, today: Date, versionToCommitHash: string -> Option<string>)
    returns (outcome: Outcome, commits: seq<Commit>, ghost range: Range, ghost written: Option<string>)
    requires changelog.repositoryUrl == git.repositoryUrl
    modifies changelog
    // on an error the file is gone exactly when it was empty or only the placeholder
    ensures outcome.Failed? ==> (changelog.file.None? <==> ShouldDelete(changelog.fullContent))
    // a changelog whose version line cannot be read stops the run before anything is asked of git
    ensures PrevVersionOf(Some(old(changelog.file).GetOr("")), changelog.rc.config).Err? ==>
      outcome.Failed? && commits == [] && written.None?
    // the range is the flags over the previous release's commit; a first run needs `--fromCommit` with `--toCommit`
    ensures PrevVersionOf(Some(old(changelog.file).GetOr("")), changelog.rc.config).Ok? ==>
      range == MakeRange(changelog.rc.fromCommit,
                         CommitOfRelease(PrevVersionOf(Some(old(changelog.file).GetOr("")), changelog.rc.config).value,
                                         changelog.rc.config.versionPrefix, today, versionToCommitHash),
                         changelog.rc.toCommit)
    ensures |commits| > 0 ==>
      && MergesLog(range, mergeEntries, git.provider, revList).Ok?
      && commits == PipelineCommits(PrettyLog(logEntries, git.provider, revList),
                                    MergesLog(range, mergeEntries, git.provider, revList).value,
                                    changelog.rc.config.pullRequestOnly, git.provider)
      && Entries(commits, changelog.repositoryUrl).Ok?
    ensures RangeRejected(range) ==> outcome.Failed? && commits == []
    // with commits, the new section is written whenever the next version can be worked out, and the file keeps it
    ensures |commits| > 0 && NextVersionOf(Some(old(changelog.file).GetOr("")), changelog.rc).Ok? ==> written.Some?
    ensures written.Some? ==>
      && |commits| > 0
      && NewContentOf(Some(old(changelog.file).GetOr("")), changelog.rc, changelog.repositoryUrl, commits, today).Ok?
      && written.value == NewContentOf(Some(old(changelog.file).GetOr("")), changelog.rc, changelog.repositoryUrl, commits, today).value
      && changelog.file == written
    // the reload after a write always throws (the new version line is dated)
    ensures |commits| > 0 && '\n' !in changelog.rc.config.header && '\n' !in changelog.rc.config.versionPrefix ==> outcome.Failed?
    // "No changes found!": nothing but the load happens
    ensures outcome.Done? && |commits| == 0 ==>
      changelog.file == if old(changelog.file).Some? then old(changelog.file) else Some(Placeholder)
  {
    commits, range, written := [], Range(Undefined, Undefined), None;
    var loaded := changelog.Load(today, versionToCommitHash);
    if loaded.Failed? {
      outcome := Rollback(changelog, loaded.message);
      return;
    }
    var asked := MakeRange(changelog.rc.fromCommit, changelog.latestCommit, changelog.rc.toCommit);
    range := asked;
    var collected := CollectCommits(asked, mergeEntries, logEntries, git.provider, revList, changelog.rc.config.pullRequestOnly);
    if collected.Err? {
      outcome := Rollback(changelog, collected.message);
      return;
    }
    commits := collected.value;
    if |commits| == 0 {
      outcome := Done;
      return;
    }
    CollectedEntriesRender(asked, mergeEntries, logEntries, git.provider, revList, changelog.rc.config.pullRequestOnly,
                           changelog.repositoryUrl);
    outcome, written := WriteOrRollback(changelog, commits, today, versionToCommitHash);
  }
}
