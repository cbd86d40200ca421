# changeloger, modelled in Dafny

changeloger writes a `CHANGELOG.md` from a git history. It reads the previous
release from the changelog's version line (`## v1.2.3 - 2024-5-1`), works out
the commit range since that release, and reads the merge commits and the log
of that range. It keeps the commits that belong in the new section: plain
merges never, and either only pull requests or everything a pull request did
not already bring in. It renders each one as a Markdown bullet linking to the
hosting provider (GitHub, GitLab, Bitbucket) and prepends a new release
section. If anything throws, it removes a changelog that holds nothing but its
placeholder. A separate parser (`Release`) splits changelog text back into
release blocks with their versions and linked commit hashes.

The model follows the source files one module each:

| module | file | form |
|---|---|---|
| `Base` | JavaScript `split`, `join`, `trim`, `replace`, `filter`, `map` | functions and lemmas |
| `Types` | `src/types.d.ts` | datatypes |
| `Config` | `src/config/index.ts` | constants; each pull-request regular expression written out as a predicate |
| `Versions` | `src/lib/Version.ts` | datatype `Version` with its members; `parse` as a function |
| `GitRepository` | `src/lib/utils/gitRepository.ts` | functions; the `git@` regular expression as a predicate plus a search function |
| `Commits` | `src/lib/Commit.ts` | datatype `Commit` and the entry renderers |
| `GitCommands` | `src/lib/Git.ts` | the pure parts as functions; class `Git` for `load()` |
| `ChangelogFile` | `src/lib/Changelog.ts` | the getters as functions over `fullContent`; class `Changelog` with `fullContent`, `latestCommit` and the file as fields |
| `Releases` | `src/lib/Release.ts` | the constructor as a method that shifts lines; the splitter and the hash extraction as functions |
| `Pipeline` | `src/main.ts` | selection as functions; `main` as a method over a `Git` and a `Changelog` |

`main` builds its `Changelog` around its own `Git` object, so
`Pipeline.Generate` requires the changelog's repository URL to be the `Git`
object's. The compare link and the entries read it through `this.git`.

Behaviours of the source that the model proves rather than smooths over:

- **A written changelog cannot be reloaded.** `writeChanges` writes the new
  version line with `Version.toString`'s default date, so the line reads
  `## v1.2.4 - 2024-5-1`. Right after writing it calls `load()`, and
  `prevVersion` feeds `1.2.4 - 2024-5-1` to the single-string `Version`
  constructor. That constructor rejects it, because the last part is not a
  number. `ChangelogFile.ReloadAfterWrite` proves this for every written text.
  `ChangelogFile.Changelog.WriteChanges` and `Pipeline.Generate` therefore end
  in an error whenever they write, as long as the header and the prefix have no
  line break. The written file stays in place, because `Pipeline.WrittenFileKept`
  shows it is never taken for the placeholder. `Version.parse` does read the
  line back (`Versions.ParseToString`).
- **The release parser loses entries.** After the version line the parser
  drops one line and takes the next as the compare link. When no compare link
  was written, that line is the first entry. Being non-blank, it also makes the
  parser drop the second entry. `Releases.UnlinkedSectionDropsEntries` proves
  that the hashes of the first two entries are lost.
- **Only Bitbucket pull requests are detected.** `prettyLog` reads the
  message with `%s`, the one-line subject. The GitHub, GitLab and default
  patterns all need a line break after the subject, so merges from those
  hosts are never taken for pull requests (`Config.OnlyBitbucketMatchesOneLine`,
  `Config.GithubNeedsNewline`).
- **The release splitter ignores the prefix.** It cuts only before `## `
  followed by a digit, so `## v1.2.3` headers are never cut apart
  (`Releases.PrefixedHeaderNotCut`).

## Model

| member | source | states |
|---|---|---|
| `Config.OnlyBitbucketMatchesOneLine` | src/config/index.ts:24-35 | A message without a line break is never a pull request except under Bitbucket: every other pattern needs a newline. |
| `Config.BitbucketSubjectDetected` | src/config/index.ts:28-29 | A one-line `Merged in … (pull request #N)` subject is detected for Bitbucket. |
| `Config.GithubNeedsNewline` | src/config/index.ts:26-27 | GitHub's merge subject is detected only when a newline follows it. |
| `Versions.NumberOf` | src/lib/Version.ts:22-23 | `Number` of a version part: a digit string reads as its decimal value, and every accepted part is digits once trimmed. |
| `Versions.Version.ToString` | src/lib/Version.ts:61-65 | The prefix, then the version; then ` - Y-M-D` exactly when a date is given. |
| `Versions.Version.NextVersion` | src/lib/Version.ts:67-81 | Major, minor and patch bumps per Semantic Versioning items 6-8; any other kind gives the receiver back. |
| `Versions.NextVersionIncreases` | src/lib/Version.ts:67-77 | A recognised bump gives a version of strictly higher precedence. |
| `Versions.FromString` | src/lib/Version.ts:17-32 | The single-string constructor succeeds exactly when the text splits on `.` into three parts that are all numbers, and then holds their values. |
| `Versions.FromStrings` | src/lib/Version.ts:41-51 | The three-string constructor succeeds exactly when no part is NaN, and then holds the three parts' values. |
| `Versions.FromStringAgrees` | src/lib/Version.ts:17-51 | On a text with three dot-separated parts, the single-string constructor succeeds exactly when the three-string one does on those parts, and gives the same version. |
| `Versions.FromStringOfDigits` | src/lib/Version.ts:22-32 | Three digit strings joined by dots are read as exactly their values. |
| `Versions.FromStringVersionString` | src/lib/Version.ts:57-59 | The constructor reads the `version` getter's text back as the same version. |
| `Versions.SplitThree` | src/lib/Version.ts:22 | Three pieces without a dot, joined by dots, split back into exactly those pieces. |
| `Versions.DatedVersionRejected` | src/lib/Version.ts:22-31 | The constructor rejects a version carrying the ` - Y-M-D` date suffix. |
| `Versions.Parse` | src/lib/Version.ts:83-89 | `parse` succeeds exactly when the text starts with `## ` + prefix followed by `\d+.\d+.\d+`. |
| `Versions.TripleParses` | src/lib/Version.ts:84-88 | Whatever the pattern matched always builds a version. |
| `Versions.TripleEndOf` | src/lib/Version.ts:84-86 | Three digit runs joined by dots and not followed by a digit are exactly where `\d+\.\d+\.\d+` ends. |
| `Versions.ParseIgnoresTail` | src/lib/Version.ts:83-89 | A header followed by text that does not continue the last number parses to its version. |
| `Versions.ParseToString` | src/lib/Version.ts:61-89 | Round trip: `parse(v.toString("## " + p, d), p)` is `v`, with or without a date. |
| `GitRepository.PullRequestUrl` | src/lib/utils/gitRepository.ts:3-20 | Empty unless there is a repository URL, a non-zero number and a known host; otherwise the provider's `/pull/`, `/pull-requests/` or `/merge_requests/` URL. |
| `GitRepository.CommitUrl` | src/lib/utils/gitRepository.ts:22-39 | Empty unless there is a repository URL and a known host; otherwise the provider's `/commit/`, `/commits/` or `/-/commit/` URL. |
| `GitRepository.CompareUrl` | src/lib/utils/gitRepository.ts:41-59 | Empty unless the repository URL and the previous version are both non-empty; `/compare/p...n` for GitHub and GitLab, `/branches/compare/p..n` for Bitbucket. |
| `GitRepository.GuessProvider` | src/lib/utils/gitRepository.ts:79-84 | The first of github, gitlab, bitbucket the URL contains; none when it contains none. |
| `GitRepository.ToRepoUrl` | src/lib/utils/gitRepository.ts:61-77 | An `http` URL loses one trailing `.git` and is kept otherwise; a `git@` URL gives exactly `https://{host}.com/{username}/{repository}` from the captures when a host is known, and null otherwise; anything else gives null. |
| `GitRepository.HttpsUrl` | src/lib/utils/gitRepository.ts:71-74 | Null without a host; otherwise exactly `https://{host}.com/{username}/{repository}`. |
| `GitRepository.ScpCaptureSpec` | src/lib/utils/gitRepository.ts:67-69 | The search finds a match exactly when the pattern matches somewhere. Its captures are those of the leftmost match; among matches starting there, the greedy `.+` takes the last possible `:`, and the greedy repository capture is the longest that `.git` still follows. |
| `GitRepository.StandardNames` | src/lib/utils/gitRepository.ts:67-69 | On `git@host:user/repo.git` the captures are exactly `user` and `repo`. |
| `GitRepository.ScpRemoteUrl` | src/lib/utils/gitRepository.ts:66-74 | `git@host:user/repo.git` becomes `https://{provider}.com/user/repo`, with the given provider over the guessed one. |
| `Commits.NewCommit` | src/lib/Commit.ts:17-22 | A commit is a pull request only when the log says so, keeps the log's hash, message, body and `commits`, and records the provider. |
| `Commits.BitbucketPrNumberSpec` | src/lib/Commit.ts:27-31 | A number is found exactly when the Bitbucket pattern matches. It is the digit value of the leftmost match and, among matches starting there, of the one whose greedy branch capture reaches the last ` (pull request #`. |
| `Commits.PullRequestNo` | src/lib/Commit.ts:24-35 | Null for a plain commit and for every provider but Bitbucket. For a Bitbucket pull request it is the number the Bitbucket pattern captures, or an error when the message does not match. |
| `Commits.BitbucketSubjectNumber` | src/lib/Commit.ts:27-31 | `Merged in B (pull request #N)` gives `N`. |
| `Commits.CommitLink` | src/lib/Commit.ts:44-48 | ``[`hash`](url)``, written even when the URL is empty. |
| `Commits.CommitEntry` | src/lib/Commit.ts:43-50 | `- message (` followed by the commit link and `)`. |
| `Commits.SquashedLinks` | src/lib/Commit.ts:59-66 | One link per squashed hash, in order, each for the hash cut to 7 characters; none for a null list. |
| `Commits.PrLink` | src/lib/Commit.ts:53-58 | ` ([#N](url))` exactly when the pull-request URL is non-empty. |
| `Commits.PullRequestEntry` | src/lib/Commit.ts:52-70 | Fails exactly when the number cannot be read; otherwise `- body`, the link, and the squashed links joined by `, `. |
| `Commits.ToChangelogEntry` | src/lib/Commit.ts:37-41 | The pull-request rendering exactly for pull requests, the commit rendering otherwise. |
| `Commits.PrLinkOnlyForBitbucket` | src/lib/Commit.ts:52-70 | Outside Bitbucket a pull request never carries its own link. |
| `Commits.NoSquashedCommits` | src/lib/Commit.ts:59-69 | A null `commits` list renders as `()`. |
| `Commits.BitbucketPrLinked` | src/lib/Commit.ts:52-58 | A Bitbucket pull request with a repository URL links to `/pull-requests/N`. |
| `GitCommands.RangeToOption` | src/lib/Git.ts:290-293 | Empty when the lower bound is falsy; otherwise `from..to`, `to` being `HEAD` only when absent. |
| `GitCommands.HeadRangesAccepted` | src/lib/Git.ts:138-141 | An upper bound that upper-cases to `HEAD` passes the guard, and so does a missing one. Any other non-empty upper bound without a truthy lower bound is rejected. |
| `GitCommands.HeadIsUpperCased` | src/lib/Git.ts:140 | The `HEAD` test holds exactly when the ASCII upper-casing of the bound is `HEAD`. |
| `GitCommands.SplitTrimmed` | src/lib/Git.ts:103-106 | Exactly the non-empty trimmed pieces, in their order, each as many times as it occurs among the trimmed pieces. |
| `GitCommands.BranchOf` | src/lib/Git.ts:107-109 | The first ref starting with `origin/`, without that prefix; null when no ref starts with it. |
| `GitCommands.ShortHashes` | src/lib/Git.ts:118-120 | Each hash cut to its first 7 characters: 7 long, or the whole hash when it is shorter. |
| `GitCommands.PrettyLogEntry` | src/lib/Git.ts:102-131 | The trimmed body, the split refs and parents, the branch, the pull-request test, and `commits` only for a pull request. |
| `GitCommands.PrettyLog` | src/lib/Git.ts:101-133 | One normalised record per entry, in order. |
| `GitCommands.MergeEntry` | src/lib/Git.ts:145-157 | Recomputes `isPullRequest` and sets `commits` for every merge; nothing else changes. |
| `GitCommands.MergesLog` | src/lib/Git.ts:138-159 | Throws exactly when the range guard rejects; otherwise one merge record per entry. |
| `GitCommands.MergeEntryAgrees` | src/lib/Git.ts:146-156 | The recomputed test agrees with `prettyLog`'s; a plain merge gains a `commits` list it did not have. |
| `GitCommands.RemoteField` | src/lib/Git.ts:172-176 | Takes the first line starting with the remote's name. The result is the text between that line's first tab and the next space, and null exactly when there is no such line, no tab or no text. |
| `GitCommands.Remote` | src/lib/Git.ts:163-181 | Null when no URL field is found; otherwise `toRepoUrl` of the field, with no provider. |
| `GitCommands.RemoteOfFetchLine` | src/lib/Git.ts:172-179 | When the first line of `git remote -v` is `name<TAB>url (fetch)`, the remote is `toRepoUrl(url)`. |
| `GitCommands.Tag2Hash` | src/lib/Git.ts:217-231 | Null for empty output; otherwise the output or its first 7 characters. |
| `GitCommands.Git.constructor` | src/lib/Git.ts:14-22 | A new `Git` has no repository URL, branch or provider yet. |
| `GitCommands.Git.Load` | src/lib/Git.ts:24-34 | The package URL or else the remote's; the trimmed branch; the configured provider or else the guessed one. |
| `ChangelogFile.RemoveHeaderSpec` | src/lib/Changelog.ts:133-135 | Removes exactly the first line and its line break; text without a line break becomes empty. |
| `ChangelogFile.NoVersionLineWithoutContent` | src/lib/Changelog.ts:44-48 | An empty or one-line file has no content and no version line. |
| `ChangelogFile.ContentOfSpec` | src/lib/Changelog.ts:44-48 | A missing or empty file has no content; otherwise the content is the text after the first line break. |
| `ChangelogFile.PrevVersionOf` | src/lib/Changelog.ts:59-65 | Null when line 1 is missing or blank. Otherwise it fails exactly when the constructor rejects line 1 with its first `## ` + prefix removed, and else it is that version. |
| `ChangelogFile.LatestVersionOf` | src/lib/Changelog.ts:50-57 | With a non-blank line 1 it fails exactly when `prevVersion` does, and otherwise it is that same version. |
| `ChangelogFile.FreshLatestVersion` | src/lib/Changelog.ts:50-57 | Without a version line the latest version is `startVersion` and there is no previous one. |
| `ChangelogFile.BumpType` | src/lib/Changelog.ts:67-74 | `patch` beats `minor` beats `major` beats the configured kind. |
| `ChangelogFile.ResolveBumpType` | src/lib/Changelog.ts:67-74 | The step-by-step overrides give the kind of that precedence. |
| `ChangelogFile.NextVersionOf` | src/lib/Changelog.ts:67-74 | Defined exactly when the latest version is, and then it is the latest version bumped by the resolved kind. It is higher than the latest version for a recognised kind. |
| `ChangelogFile.UndatedLineRead` | src/lib/Changelog.ts:50-74 | An undated `## ` + prefix + version on line 1 reads back as that version for `prevVersion` and `latestVersion`, and `nextVersion` is its bump. |
| `ChangelogFile.Entries` | src/lib/Changelog.ts:137-141 | Fails exactly when some commit fails to render; otherwise one entry per commit, in order. |
| `ChangelogFile.SectionParts` | src/lib/Changelog.ts:111-116 | Header, version line, the compare link only when non-empty, and the entries joined by line breaks. |
| `ChangelogFile.VersionLine` | src/lib/Changelog.ts:113-115 | Starts with `## ` + prefix + the version. |
| `ChangelogFile.SectionCompareUrl` | src/lib/Changelog.ts:100-105 | Non-empty exactly when there is a previous version, a repository URL and a configured known host. It is then `{repo}/compare/{prev}...{next}` (Bitbucket: `{repo}/branches/compare/{prev}..{next}`), both versions prefixed and dated today. |
| `ChangelogFile.NewContentOf` | src/lib/Changelog.ts:97-119 | Fails exactly when the previous version, the next version or an entry fails. |
| `ChangelogFile.VersionLineIsOneLine` | src/lib/Changelog.ts:113-115 | The version line has no line break and no surrounding whitespace. |
| `ChangelogFile.WrittenLayout` | src/lib/Changelog.ts:111-119 | The written content starts with an empty line, the version line and an empty line, and ends with the old content or an empty line. |
| `ChangelogFile.TextLayout` | src/lib/Changelog.ts:111-119 | For any one-line header and version line, the text as written has that layout: version line on line 1, old content last. |
| `ChangelogFile.WrittenCompareLink` | src/lib/Changelog.ts:76-80 | When a compare link is written, `latestCompareChangesUrl` reads back exactly its URL. |
| `ChangelogFile.LatestCompareChangesUrlRead` | src/lib/Changelog.ts:76-80 | Empty without a fourth content line; a fourth line `[compare changes](url)` gives back `url` when `url` holds no `)`. |
| `ChangelogFile.LinkedText` | src/lib/Changelog.ts:76-80 | In any text laid out as written with a compare link, line 3 is the link and the getter reads its URL back. |
| `ChangelogFile.DatedLineRejected` | src/lib/Changelog.ts:59-65 | A written version line, its `## ` + prefix removed, is rejected by the constructor. |
| `ChangelogFile.ReloadAfterWrite` | src/lib/Changelog.ts:97-123 | After a write, the previous, latest and next versions of the new text all fail, while `parse` still reads its version line. |
| `ChangelogFile.VersionLineRead` | src/lib/Changelog.ts:50-74 | A dated version line on line 1 makes all three version getters fail. |
| `ChangelogFile.Changelog.constructor` | src/lib/Changelog.ts:15-22 | A new changelog has no content and an undefined latest commit. |
| `ChangelogFile.Changelog.UpdateLatestCommit` | src/lib/Changelog.ts:89-95 | Null without a previous release, the looked-up hash otherwise; throws, changing nothing, when the version line is unreadable. |
| `ChangelogFile.Changelog.Load` | src/lib/Changelog.ts:24-34 | Reads the file, or creates it with the placeholder and starts from empty content. Then it sets the latest commit as `updateLatestCommit` does, and fails exactly when the version line is unreadable. |
| `ChangelogFile.Changelog.WriteChanges` | src/lib/Changelog.ts:97-123 | With no commits it only reloads. When building fails it writes nothing and keeps the latest commit. Otherwise it writes the new text and reloads it, setting the latest commit from the new version line; that reload then fails. |
| `ChangelogFile.Changelog.WriteText` | src/lib/Changelog.ts:121-122 | Writes the text and reloads it: the content is the text, the outcome fails exactly when its version line is unreadable, and the latest commit follows it. |
| `ChangelogFile.Changelog.Delete` | src/lib/Changelog.ts:125-127 | Removes the file; fails exactly when there is none. |
| `Releases.LinkAtComplete` | src/lib/Release.ts:23 | Every match of the hash-link pattern at a position is found, with its hash and the position after it. |
| `Releases.LinkAtSound` | src/lib/Release.ts:23 | Every link found is a match of the pattern. |
| `Releases.HashesAtMatch` | src/lib/Release.ts:23-27 | After a match the search resumes at its end. |
| `Releases.SkipPlainText` | src/lib/Release.ts:23-26 | Text without `[` contributes no hash. |
| `Releases.HashesFromAreHashes` | src/lib/Release.ts:23-26 | Every hash read from a line is 7 to 40 lower-case hexadecimal digits. |
| `Releases.HashesAppend` | src/lib/Release.ts:24-27 | The hashes of two runs of lines are those of the first run followed by those of the second, as `flatMap` gives them. |
| `Releases.HashesOfLines` | src/lib/Release.ts:24-27 | Every hash read from a run of lines is a hash, and comes from one of those lines. |
| `Releases.ReleaseOf` | src/lib/Release.ts:9-28 | Fails exactly when the first line does not parse; otherwise the block, its version and its hashes. |
| `Releases.NewRelease` | src/lib/Release.ts:13-27 | The constructor's line shifts compute exactly that release. |
| `Releases.ReleaseToString` | src/lib/Release.ts:30-32 | The dated version, then `[`, the hashes joined by `, `, and `]`. |
| `Releases.CutsFromSpec` | src/lib/Release.ts:37-41 | The cut positions are exactly the headers, in increasing order. |
| `Releases.BoundsSpec` | src/lib/Release.ts:37-41 | Every inner bound is a header, and every header after the start is a bound. |
| `Releases.SlicesFlatten` | src/lib/Release.ts:41 | The slices between ordered boundaries put back together give the text from the first boundary to the last. |
| `Releases.Chunks` | src/lib/Release.ts:37-41 | Like `split`, at least one block; the blocks put back together give the text. |
| `Releases.ChunksRoundTrip` | src/lib/Release.ts:41 | The blocks put back together give the text, and each later block starts at a header. |
| `Releases.PrefixedHeaderNotCut` | src/lib/Release.ts:37-40 | A `## ` not followed by a digit is never cut. |
| `Releases.ParseReleases` | src/lib/Release.ts:34-45 | Empty input gives no releases. Otherwise it fails exactly when some block fails to parse, and else holds each block's release, one per block and in order. |
| `Releases.ReleasesOf` | src/lib/Release.ts:42-44 | Fails exactly when some block fails; otherwise one release per block, in order. |
| `Releases.OneLinkHashes` | src/lib/Release.ts:23-27 | A line with one ``[`hash`](https://…)`` link yields exactly that hash. |
| `Releases.CommitEntryHashes` | src/lib/Release.ts:23-27 | A commit entry rendered with a `https://` repository URL yields exactly its hash. |
| `Releases.UnlinkedCommitEntry` | src/lib/Release.ts:23 | A commit entry with an empty URL yields no hash. |
| `Releases.ReleaseOfSection` | src/lib/Release.ts:13-27 | A written section with a compare link reads back as its version and the hashes of all its entries. |
| `Releases.UnlinkedSectionDropsEntries` | src/lib/Release.ts:20-22 | Without a compare link the first two entries are skipped. |
| `Releases.CommitEntriesHashes` | src/lib/Release.ts:24-27 | The entries of plain commits read back as their hashes, in order. |
| `Pipeline.MakeRange` | src/main.ts:27-30 | `fromCommit` or else the latest commit, and `toCommit` when given or else `HEAD`. It is rejected exactly when a non-`HEAD` upper bound has a falsy lower bound. |
| `Pipeline.RangeGuard` | src/main.ts:27-31 | Without `toCommit` the range always passes; a first run with a non-`HEAD` `toCommit` needs `fromCommit`. |
| `Pipeline.NonPrMergeHashes` | src/main.ts:32-34 | Exactly the hashes of the merges that are not pull requests. |
| `Pipeline.MergedHashes` | src/main.ts:35-37 | Exactly the hashes listed in the `commits` of pull-request merges. |
| `Pipeline.SelectionSpec` | src/main.ts:42-47 | The selection keeps the log's order and keeps exactly the logs that pass both filters. |
| `Pipeline.PlainMergesLeftOut` | src/main.ts:32-44 | A plain merge's hash is never selected. |
| `Pipeline.SquashedCommitsLeftOut` | src/main.ts:35-47 | Without `pullRequestOnly`, a commit a pull request brought in is never selected. |
| `Pipeline.PipelineCommits` | src/main.ts:48-50 | One commit per selected log, with the repository's provider. |
| `Pipeline.LogEntryRenders` | src/main.ts:48-50 | A commit built with the provider its log was read with always renders. |
| `Pipeline.PipelineEntriesRender` | src/main.ts:38-53 | Every selected commit renders, so building the entries never fails. |
| `Pipeline.WrittenFileKept` | src/main.ts:56-62 | A written changelog is never taken for an empty one. |
| `Pipeline.PlaceholderDeleted` | src/main.ts:56-62 | A missing or empty changelog, and the placeholder with trailing whitespace, are taken for empty and deleted. |
| `Pipeline.CollectCommits` | src/main.ts:31-50 | Fails exactly when the range is rejected; otherwise the selected commits. |
| `Pipeline.Rollback` | src/main.ts:56-64 | Deletes the file exactly when the content is empty or the placeholder, then fails with the error (or the delete's). |
| `Pipeline.Finish` | src/main.ts:56-64 | After `writeChanges`, fails exactly when it failed; a file that is not taken for an empty one is kept as written. |
| `Pipeline.WriteOrRollback` | src/main.ts:51-64 | Writes when the next version is known; an error leaves the file deleted exactly when it was empty; it always fails after writing. |
| `Pipeline.Generate` | src/main.ts:25-65 | The whole run. An unreadable version line or a rejected range fails with no commits. With a readable version line the range starts at the previous release's hash unless `fromCommit` is given. The written text is kept, and a run with commits always fails after writing. |

## Left out

- Process I/O: every `exec` call in `src/lib/Git.ts` (`status`, `isClean`, the log commands, `revList`, `add`, `commit`, `tag`, `push`) and the `sed` and `JSON.parse` step of `prettyLog`. Already-parsed log entries and `revList` results are parameters.
- `Git.log`'s split on a capturing group with a lookahead: `main` never calls it.
- `Promise.all`: it keeps input order, so the model runs the steps in sequence.
- `src/lib/utils/file.ts` (file access, dynamic `import`, the `defu` merge) and `src/lib/PackageJson.ts` (file reading, `npm version`). The package's repository URL is a parameter of `Git.Load`.
- The file system: the changelog file is the `file` field of `Changelog`, and reading, writing and unlinking update it. `changelogFilePath` (the `{branch}` substitution and path resolution) is not modelled.
- JavaScript `Date` and `src/lib/utils/datetime.ts`: the date is a parameter `(year, month, day)` rendered `Y-M-D` without padding, the same date for the whole run.
- `versionToCommitHash`: it is not defined in `src/lib/Git.ts`, so the lookup is a function parameter.
- The `entries` getter of `Changelog` returns an empty list (its body is a placeholder), and nothing calls it.
- `Versions.NumberOf`: signs, exponents, hexadecimal and `Infinity` are read as NaN, and unbounded integers stand for floating-point parts.
- `Versions.Parse` and `Releases.ReleaseOf`: the prefix is taken literally; a prefix with regular-expression metacharacters is not modelled.
- `GitCommands.IsHead`: the case-insensitive comparison upper-cases ASCII letters only.
- Console output (`console.log`, `console.error`) and the command-line entry points, `src/help.ts`, `src/version.ts`, `rollup.config.js` and the bundles under `dist/`.
- The commit-type grouping: the `CommitType` enum in `dist/index.d.ts` has no implementing code.
