/**
  The changelog document. Its state is the text last read from the file
  (`fullContent`), the hash of the commit the previous release was cut from
  (`latestCommit`) and, standing in for the file system, the file itself.
  The readers below are the getters over `fullContent`; the writer prepends
  one release section and reads the file back.
*/
module ChangelogFile {
  import opened Base
  import opened Types
  import opened Config
  import opened Versions
  import opened GitRepository
  import opened Commits

  /** What `load()` writes to a changelog file that does not exist yet. */
  const Placeholder: string := "<!-- Generating... -->"

  /** `Changelog.removeHeader(text)`: everything after the first line. */
  function RemoveHeader(text: string): string {
    Join(Split(text, '\n')[1..], "\n")
  }

  /** `removeHeader` drops exactly the text up to and including the first line break. */
  lemma RemoveHeaderSpec(first: string, rest: string)
    requires '\n' !in first
    ensures RemoveHeader(first + "\n" + rest) == rest
    ensures RemoveHeader(first) == ""
  {
    SplitCons(first, rest, '\n');
    assert first + "\n" + rest == first + ['\n'] + rest;
    assert ([first] + Split(rest, '\n'))[1..] == Split(rest, '\n');
    SplitJoin(rest, '\n');
    SplitNoSep(first, '\n');
  }

  /** The `content` getter: empty for a missing or empty file, otherwise the text without its first line. */
  function ContentOf(fullContent: Option<string>): string {
    if !Present(fullContent) then "" else RemoveHeader(fullContent.value)
  }

  /** `content`: nothing for a missing or empty file, otherwise everything after the header line. */
  lemma ContentOfSpec(first: string, rest: string)
    requires '\n' !in first
    ensures ContentOf(None) == "" && ContentOf(Some("")) == ""
    ensures ContentOf(Some(first + "\n" + rest)) == rest
  {
    RemoveHeaderSpec(first, rest);
  }

  /** The `lines` getter: the content split at line breaks (one empty line for empty content). */
  function LinesOf(fullContent: Option<string>): (r: seq<string>)
    ensures |r| >= 1
  {
    Split(ContentOf(fullContent), '\n')
  }

  /** `this.lines[i]?.trim()`: `None` when there is no such line. */
  function TrimmedLine(fullContent: Option<string>, i: nat): Option<string> {
    var lines := LinesOf(fullContent);
    if i < |lines| then Some(Trim(lines[i])) else None
  }

  /** `"## " + versionPrefix`, the start of a release header line. */
  function HeaderPrefix(config: Types.Config): string {
    VersionHeader + config.versionPrefix
  }

  /**
    The `prevVersion` getter: `null` when line 1 of the content is missing or
    blank, otherwise the single-string constructor applied to that line with
    the first `"## " + prefix` removed (which throws on anything else).
  */
  function PrevVersionOf(fullContent: Option<string>, config: Types.Config): (r: Result<Option<Version>>)
    ensures !Present(TrimmedLine(fullContent, 1)) ==> r == Ok(None)
    ensures Present(TrimmedLine(fullContent, 1)) ==> r.Err? || r.value.Some?
    ensures Present(TrimmedLine(fullContent, 1)) ==>
      (r.Ok? <==> FromString(ReplaceFirst(TrimmedLine(fullContent, 1).value, HeaderPrefix(config), "")).Ok?)
    ensures r.Ok? && r.value.Some? ==>
      r.value.value == FromString(ReplaceFirst(TrimmedLine(fullContent, 1).value, HeaderPrefix(config), "")).value
  {
    var cur := TrimmedLine(fullContent, 1);
    if !Present(cur) then Ok(None)
    else
      match FromString(ReplaceFirst(cur.value, HeaderPrefix(config), ""))
      case Err(e) => Err(e)
      case Ok(v) => Ok(Some(v))
  }

  /**
    The `latestVersion` getter: as `prevVersion`, with the configured start
    version standing in for a missing or blank line 1.
  */
  function LatestVersionOf(fullContent: Option<string>, config: Types.Config): (r: Result<Version>)
    ensures Present(TrimmedLine(fullContent, 1)) ==>
      (r.Ok? <==> PrevVersionOf(fullContent, config).Ok?) && (r.Ok? ==> PrevVersionOf(fullContent, config) == Ok(Some(r.value)))
  {
    var line := TrimmedLine(fullContent, 1);
    var cur := if Present(line) then line.value else HeaderPrefix(config) + config.startVersion;
    FromString(ReplaceFirst(cur, HeaderPrefix(config), ""))
  }

  /** With no version line yet, the latest version is the configured start version. */
  lemma FreshLatestVersion(fullContent: Option<string>, config: Types.Config)
    requires !Present(TrimmedLine(fullContent, 1))
    ensures LatestVersionOf(fullContent, config) == FromString(config.startVersion)
    ensures PrevVersionOf(fullContent, config) == Ok(None)
  {
    ReplaceFirstAtStart(HeaderPrefix(config), config.startVersion);
  }

  /**
    An undated header `## <prefix>X.Y.Z` on line 1 is read as version X.Y.Z by
    `prevVersion` and `latestVersion`, and `nextVersion` bumps it.
  */
  lemma UndatedLineRead(fullContent: Option<string>, rc: RuntimeConfig, v: Version)
    requires TrimmedLine(fullContent, 1) == Some(HeaderPrefix(rc.config) + v.VersionString())
    ensures PrevVersionOf(fullContent, rc.config) == Ok(Some(v))
    ensures LatestVersionOf(fullContent, rc.config) == Ok(v)
    ensures NextVersionOf(fullContent, rc) == Ok(v.NextVersion(BumpType(rc)))
  {
    ReplaceFirstAtStart(HeaderPrefix(rc.config), v.VersionString());
    FromStringVersionString(v);
  }

  /** A missing file, an empty file and a one-line file all have no version line. */
  lemma NoVersionLineWithoutContent(fullContent: Option<string>)
    requires !Present(fullContent) || '\n' !in fullContent.value
    ensures ContentOf(fullContent) == "" && TrimmedLine(fullContent, 1).None?
  {
    if Present(fullContent) {
      RemoveHeaderSpec(fullContent.value, "");
    }
  }

  /**
    The bump kind `nextVersion` uses: the `patch` flag wins over `minor`,
    which wins over `major`, which wins over the configured kind.
  */
  function BumpType(rc: RuntimeConfig): (kind: string)
    ensures rc.patch ==> kind == "patch"
    ensures !rc.patch && rc.minor ==> kind == "minor"
    ensures !rc.patch && !rc.minor && rc.major ==> kind == "major"
    ensures !rc.patch && !rc.minor && !rc.major ==> kind == rc.config.versionBumpType
  {
    if rc.patch then "patch"
    else if rc.minor then "minor"
    else if rc.major then "major"
    else rc.config.versionBumpType
  }

  /** The getter's own steps: start from the configured kind, then let each set flag overwrite it in turn. */
  method ResolveBumpType(rc: RuntimeConfig) returns (kind: string)
    ensures kind == BumpType(rc)
  {
    kind := rc.config.versionBumpType;
    if rc.major {
      kind := "major";
    }
    if rc.minor {
      kind := "minor";
    }
    if rc.patch {
      kind := "patch";
    }
  }

  /** The `nextVersion` getter: the latest version bumped by the resolved kind. */
  function NextVersionOf(fullContent: Option<string>, rc: RuntimeConfig): (r: Result<Version>)
    ensures r.Ok? <==> LatestVersionOf(fullContent, rc.config).Ok?
    ensures r.Ok? ==> r.value == LatestVersionOf(fullContent, rc.config).value.NextVersion(BumpType(rc))
    ensures r.Ok? && BumpType(rc) in {"major", "minor", "patch"} ==> Less(LatestVersionOf(fullContent, rc.config).value, r.value)
  {
    match LatestVersionOf(fullContent, rc.config)
    case Err(e) => Err(e)
    case Ok(v) => Ok(v.NextVersion(BumpType(rc)))
  }

  /** The `latestCompareChangesUrl` getter: line 3 without the link wrapper (first occurrences only). */
  function LatestCompareChangesUrlOf(fullContent: Option<string>): string {
    var lines := LinesOf(fullContent);
    var line := if 3 < |lines| then lines[3] else "";
    ReplaceFirst(ReplaceFirst(line, "[compare changes](", ""), ")", "")
  }

  /**
    Without a fourth content line there is no link; a fourth line
    `[compare changes](url)` gives back `url` when it holds no `)`.
  */
  lemma LatestCompareChangesUrlRead(fullContent: Option<string>, url: string)
    ensures |LinesOf(fullContent)| <= 3 ==> LatestCompareChangesUrlOf(fullContent) == ""
    ensures 3 < |LinesOf(fullContent)| && LinesOf(fullContent)[3] == "[compare changes](" + url + ")" && ')' !in url ==>
      LatestCompareChangesUrlOf(fullContent) == url
  {
    if 3 < |LinesOf(fullContent)| && LinesOf(fullContent)[3] == "[compare changes](" + url + ")" && ')' !in url {
      assert "[compare changes](" + url + ")" == "[compare changes](" + (url + ")");
      ReplaceFirstAtStart("[compare changes](", url + ")");
      RemoveClosingParen(url);
    }
  }

  /** `commitsToEntries`: every commit rendered in order; the first one that throws fails the whole list. */
  function Entries(commits: seq<Commit>, repo: Option<string>): (r: Result<seq<string>>)
    ensures r.Ok? <==> forall i :: 0 <= i < |commits| ==> ToChangelogEntry(commits[i], repo).Ok?
    ensures r.Ok? ==> |r.value| == |commits| && forall i :: 0 <= i < |commits| ==> r.value[i] == ToChangelogEntry(commits[i], repo).value
  {
    MapAll(commits, c => ToChangelogEntry(c, repo))
  }

  /** The `[compare changes](url)` line, absent when the URL is empty. */
  function CompareLink(url: string): string {
    if url != "" then "[compare changes](" + url + ")" else ""
  }

  /**
    The text of the new section's pieces: the header, the dated version line,
    the compare link when there is one, and the entries one per line.
  */
  function SectionParts(header: string, versionLine: string, link: string, entries: seq<string>): (r: seq<string>)
    ensures |r| >= 3 && r[0] == header && r[1] == versionLine && r[|r| - 1] == Join(entries, "\n")
    ensures link != "" <==> |r| == 4
    ensures link != "" ==> r[2] == link
  {
    [header, versionLine] + (if link != "" then [link] else []) + [Join(entries, "\n")]
  }

  /** The text after the new section: the old content after a blank line, or a single line break. */
  function Tail(content: string): string {
    if content != "" then "\n\n" + content else "\n"
  }

  /** The new section's version line: `"## " + prefix`, the version and the date. */
  function VersionLine(next: Version, config: Types.Config, today: Date): (r: string)
    ensures StartsWith(r, HeaderPrefix(config) + next.VersionString())
  {
    next.ToString(HeaderPrefix(config), Some(today))
  }

  /** The URL comparing the previous release with the new one (both names dated). */
  function SectionCompareUrl(prev: Option<Version>, next: Version, rc: RuntimeConfig, repo: Option<string>, today: Date): (r: string)
    ensures r != "" <==> prev.Some? && Present(repo) && Hosted(rc.config.provider)
    ensures r != "" && rc.config.provider != Some(Bitbucket) ==>
      r == repo.value + "/compare/" + prev.value.ToString(rc.config.versionPrefix, Some(today))
        + "..." + next.ToString(rc.config.versionPrefix, Some(today))
    ensures r != "" && rc.config.provider == Some(Bitbucket) ==>
      r == repo.value + "/branches/compare/" + prev.value.ToString(rc.config.versionPrefix, Some(today))
        + ".." + next.ToString(rc.config.versionPrefix, Some(today))
  {
    var prevText := match prev case None => None case Some(v) => Some(v.ToString(rc.config.versionPrefix, Some(today)));
    CompareUrl(prevText, next.ToString(rc.config.versionPrefix, Some(today)), rc.config.provider, repo)
  }

  /**
    The file text `writeChanges` produces for a non-empty list of commits,
    with `today` as the date every `toString` call stamps. It throws when the
    previous or next version cannot be read, or when an entry cannot be
    rendered.
  */
  function NewContentOf(fullContent: Option<string>, rc: RuntimeConfig, repo: Option<string>,
                        commits: seq<Commit>, today: Date): (r: Result<string>)
    ensures r.Ok? <==> PrevVersionOf(fullContent, rc.config).Ok? && NextVersionOf(fullContent, rc).Ok? && Entries(commits, repo).Ok?
  {
    match PrevVersionOf(fullContent, rc.config)
    case Err(e) => Err(e)
    case Ok(prev) =>
      match NextVersionOf(fullContent, rc)
      case Err(e) => Err(e)
      case Ok(next) =>
        var url := SectionCompareUrl(prev, next, rc, repo, today);
        match Entries(commits, repo)
        case Err(e) => Err(e)
        case Ok(entries) =>
          var parts := SectionParts(rc.config.header, VersionLine(next, rc.config, today), CompareLink(url), entries);
          Ok(Join(parts, "\n\n") + Tail(ContentOf(fullContent)))
  }

  /** Joining at least two parts gives the first part, the separator and the join of the rest. */
  lemma JoinHead(parts: seq<string>, sep: string)
    requires |parts| >= 2
    ensures Join(parts, sep) == parts[0] + sep + Join(parts[1..], sep)
  {
  }

  /** Three or more parts joined by blank lines, then a tail, split before the first two line breaks. */
  lemma JoinedShape(parts: seq<string>, tail: string)
    requires |parts| >= 3
    ensures Join(parts, "\n\n") + tail == parts[0] + "\n" + ("\n" + parts[1] + "\n\n" + (Join(parts[2..], "\n\n") + tail))
  {
    JoinHead(parts, "\n\n");
    JoinHead(parts[1..], "\n\n");
    assert parts[1..][1..] == parts[2..];
    BlankLineSplit(parts[0], parts[1], Join(parts[2..], "\n\n"), tail);
  }

  /** Regrouping two pieces joined by blank lines, then a tail, around the first line break. */
  lemma BlankLineSplit(a: string, b: string, rest: string, tail: string)
    ensures a + "\n\n" + (b + "\n\n" + rest) + tail == a + "\n" + ("\n" + b + "\n\n" + (rest + tail))
  {
    assert "\n\n" == "\n" + "\n";
    calc {
      a + "\n\n" + (b + "\n\n" + rest) + tail;
      a + "\n" + ("\n" + b + "\n\n" + rest + tail);
      a + "\n" + ("\n" + b + "\n\n" + (rest + tail));
    }
  }

  /** The pieces of the section `writeChanges` builds, for a write that does not throw. */
  function NewSectionParts(fullContent: Option<string>, rc: RuntimeConfig, repo: Option<string>, commits: seq<Commit>, today: Date): (r: seq<string>)
    requires NewContentOf(fullContent, rc, repo, commits, today).Ok?
    ensures |r| >= 3 && r[0] == rc.config.header && r[1] == VersionLine(NextVersionOf(fullContent, rc).value, rc.config, today)
    ensures var url := SectionCompareUrl(PrevVersionOf(fullContent, rc.config).value, NextVersionOf(fullContent, rc).value, rc, repo, today);
      url != "" ==> |r| == 4 && r[2] == CompareLink(url)
  {
    var prev := PrevVersionOf(fullContent, rc.config).value;
    var next := NextVersionOf(fullContent, rc).value;
    SectionParts(rc.config.header, VersionLine(next, rc.config, today),
      CompareLink(SectionCompareUrl(prev, next, rc, repo, today)), Entries(commits, repo).value)
  }

  /** The written text is the section's parts joined by blank lines, followed by the old content. */
  lemma NewContentShape(fullContent: Option<string>, rc: RuntimeConfig, repo: Option<string>, commits: seq<Commit>, today: Date)
    requires NewContentOf(fullContent, rc, repo, commits, today).Ok?
    ensures NewContentOf(fullContent, rc, repo, commits, today).value
      == Join(NewSectionParts(fullContent, rc, repo, commits, today), "\n\n") + Tail(ContentOf(fullContent))
  {
  }

  /** The written text: the header line, an empty line, the version line, an empty line, the rest of the section and the old content. */
  lemma WrittenText(fullContent: Option<string>, rc: RuntimeConfig, repo: Option<string>, commits: seq<Commit>, today: Date)
    requires NewContentOf(fullContent, rc, repo, commits, today).Ok?
    ensures var parts := NewSectionParts(fullContent, rc, repo, commits, today);
      NewContentOf(fullContent, rc, repo, commits, today).value
        == rc.config.header + "\n" + ("\n" + parts[1] + "\n\n" + (Join(parts[2..], "\n\n") + Tail(ContentOf(fullContent))))
  {
    NewContentShape(fullContent, rc, repo, commits, today);
    JoinedShape(NewSectionParts(fullContent, rc, repo, commits, today), Tail(ContentOf(fullContent)));
  }

  /** A version line holds no line break when the prefix holds none. */
  lemma VersionLineIsOneLine(next: Version, config: Types.Config, today: Date)
    requires '\n' !in config.versionPrefix
    ensures '\n' !in VersionLine(next, config, today)
    ensures !IsSpace(VersionLine(next, config, today)[0])
    ensures !IsSpace(VersionLine(next, config, today)[|VersionLine(next, config, today)| - 1])
  {
    var a, b, c := NatToString(next.major), NatToString(next.minor), NatToString(next.patch);
    var y, m, d := NatToString(today.year), NatToString(today.month), NatToString(today.day);
    assert '\n' !in a && '\n' !in b && '\n' !in c;
    assert '\n' !in y && '\n' !in m && '\n' !in d;
    var line := VersionLine(next, config, today);
    assert line == VersionHeader + config.versionPrefix + (a + "." + b + "." + c) + " - " + (y + "-" + m + "-" + d);
    assert line[|line| - 1] == d[|d| - 1];
  }

  /** The lines of the written content, for any header line, version line, rest of section and old content. */
  lemma WrittenLines(header: string, line: string, body: string, content: string)
    requires '\n' !in header && '\n' !in line
    ensures LinesOf(Some(header + "\n" + ("\n" + line + "\n\n" + (body + Tail(content)))))
      == ["", line, ""] + Split(body + Tail(content), '\n')
  {
    var after := body + Tail(content);
    var rest := "\n" + line + "\n\n" + after;
    var text := header + "\n" + rest;
    RemoveHeaderSpec(header, rest);
    assert ContentOf(Some(text)) == rest;
    HeadLines(line, after);
  }

  /** The lines of an empty line, a one-line text and another empty line, followed by more text. */
  lemma HeadLines(line: string, after: string)
    requires '\n' !in line
    ensures Split("\n" + line + "\n\n" + after, '\n') == ["", line, ""] + Split(after, '\n')
  {
    assert "\n" + line + "\n\n" + after == "" + ['\n'] + (line + ['\n'] + ("" + ['\n'] + after));
    SplitCons("", line + ['\n'] + ("" + ['\n'] + after), '\n');
    SplitCons(line, "" + ['\n'] + after, '\n');
    SplitCons("", after, '\n');
  }

  /** The lines of a section's remainder followed by the old content. */
  lemma TailLines(body: string, content: string)
    ensures Split(body + Tail(content), '\n') == Split(body, '\n') + [""] + (if content != "" then Split(content, '\n') else [])
  {
    if content != "" {
      BlankLineLines(body, content);
    } else {
      assert body + Tail(content) == body + ['\n'] + "";
      SplitConcat(body, "", '\n');
    }
  }

  /** The lines of two texts with a blank line between them. */
  lemma BlankLineLines(body: string, content: string)
    ensures Split(body + ("\n\n" + content), '\n') == Split(body, '\n') + [""] + Split(content, '\n')
  {
    var after := "" + ['\n'] + content;
    assert body + ("\n\n" + content) == body + ['\n'] + after;
    SplitConcat(body, after, '\n');
    SplitCons("", content, '\n');
    assert Split(after, '\n') == [""] + Split(content, '\n');
  }

  lemma Regroup<T>(a: seq<T>, b: seq<T>, c: seq<T>)
    ensures a + (b + c) == (a + b) + c
  {
  }

  /**
    The line layout of written content: an empty line, the version line and
    another empty line first; then, when there was old content, its lines
    last after one empty line, and otherwise an empty last line.
  */
  predicate SectionLayout(lines: seq<string>, line: string, old_: seq<string>, wasEmpty: bool) {
    && |lines| >= 4
    && lines[..3] == ["", line, ""]
    && (!wasEmpty ==> |lines| >= |old_| + 4 && lines[|lines| - |old_|..] == old_ && lines[|lines| - |old_| - 1] == "")
    && (wasEmpty ==> lines[|lines| - 1] == "")
  }

  /**
    After a write, the changelog's content (the text below the header line)
    starts with an empty line, the dated version line and another empty
    line, and ends with the lines of the previous content after one empty
    line (or with an empty line when there was no previous content).
  */
  lemma WrittenLayout(fullContent: Option<string>, rc: RuntimeConfig, repo: Option<string>, commits: seq<Commit>, today: Date)
    requires NewContentOf(fullContent, rc, repo, commits, today).Ok?
    requires '\n' !in rc.config.header && '\n' !in rc.config.versionPrefix
    ensures SectionLayout(LinesOf(Some(NewContentOf(fullContent, rc, repo, commits, today).value)),
      VersionLine(NextVersionOf(fullContent, rc).value, rc.config, today), LinesOf(fullContent), ContentOf(fullContent) == "")
  {
    var next := NextVersionOf(fullContent, rc).value;
    var parts := NewSectionParts(fullContent, rc, repo, commits, today);
    WrittenText(fullContent, rc, repo, commits, today);
    VersionLineIsOneLine(next, rc.config, today);
    var text := rc.config.header + "\n" + ("\n" + parts[1] + "\n\n" + (Join(parts[2..], "\n\n") + Tail(ContentOf(fullContent))));
    var content := ContentOf(fullContent);
    assert NewContentOf(fullContent, rc, repo, commits, today).value == text;
    TextLayout(rc.config.header, parts[1], Join(parts[2..], "\n\n"), content);
    assert LinesOf(fullContent) == Split(content, '\n');
  }

  /** Line 1 of a written layout is its version line. */
  lemma LayoutLine(lines: seq<string>, line: string, old_: seq<string>, wasEmpty: bool)
    requires SectionLayout(lines, line, old_, wasEmpty)
    ensures |lines| > 1 && lines[1] == line
  {
    assert lines[..3][1] == lines[1];
  }

  /** The lines of a header line, the version line, the rest of a section and the old content, as written. */
  lemma TextLayout(header: string, line: string, body: string, content: string)
    requires '\n' !in header && '\n' !in line
    ensures SectionLayout(LinesOf(Some(header + "\n" + ("\n" + line + "\n\n" + (body + Tail(content))))),
      line, Split(content, '\n'), content == "")
  {
    WrittenLines(header, line, body, content);
    TailLines(body, content);
    var rest := if content != "" then Split(content, '\n') else [];
    Regroup(["", line, ""], Split(body, '\n') + [""], rest);
    LayoutOfParts(line, Split(body, '\n'), Split(content, '\n'), content == "");
  }

  /** Three head lines, the body lines, an empty line and, unless there was none, the old lines: a section layout. */
  lemma LayoutOfParts(line: string, bodyLines: seq<string>, old_: seq<string>, wasEmpty: bool)
    ensures SectionLayout(["", line, ""] + (bodyLines + [""] + (if !wasEmpty then old_ else [])), line, old_, wasEmpty)
  {
    var lines := ["", line, ""] + (bodyLines + [""] + (if !wasEmpty then old_ else []));
    assert lines[..3] == ["", line, ""];
    if !wasEmpty {
      assert lines[|lines| - |old_|..] == old_;
    }
  }

  /** Removing the first `)` from a text that has none before its last character drops that character. */
  lemma RemoveClosingParen(url: string)
    requires ')' !in url
    ensures ReplaceFirst(url + ")", ")", "") == url
  {
    var s := url + ")";
    forall j | 0 <= j < |url|
      ensures !OccursAt(s, ")", j)
    {
      assert s[j..j + 1][0] == url[j];
    }
    assert OccursAt(s, ")", |url|);
  }

  /** Line 3 of the text is the compare link for `url`, and `latestCompareChangesUrl` reads `url` back. */
  predicate LinkReadsBack(text: string, url: string) {
    && |LinesOf(Some(text))| > 3 && LinesOf(Some(text))[3] == CompareLink(url)
    && LatestCompareChangesUrlOf(Some(text)) == url
  }

  /**
    When the written section has a compare link, it is line 3 of the new
    content, and the `latestCompareChangesUrl` getter reads the URL back
    (provided the URL has no line break and no closing parenthesis).
  */
  lemma WrittenCompareLink(fullContent: Option<string>, rc: RuntimeConfig, repo: Option<string>, commits: seq<Commit>, today: Date)
    requires NewContentOf(fullContent, rc, repo, commits, today).Ok?
    requires '\n' !in rc.config.header && '\n' !in rc.config.versionPrefix
    requires var url := SectionCompareUrl(PrevVersionOf(fullContent, rc.config).value, NextVersionOf(fullContent, rc).value, rc, repo, today);
      url != "" && '\n' !in url && ')' !in url
    ensures LinkReadsBack(NewContentOf(fullContent, rc, repo, commits, today).value,
      SectionCompareUrl(PrevVersionOf(fullContent, rc.config).value, NextVersionOf(fullContent, rc).value, rc, repo, today))
  {
    var prev := PrevVersionOf(fullContent, rc.config).value;
    var next := NextVersionOf(fullContent, rc).value;
    var url := SectionCompareUrl(prev, next, rc, repo, today);
    var link := CompareLink(url);
    var parts := NewSectionParts(fullContent, rc, repo, commits, today);
    var text := NewContentOf(fullContent, rc, repo, commits, today).value;
    WrittenText(fullContent, rc, repo, commits, today);
    VersionLineIsOneLine(next, rc.config, today);
    LastTwo(parts);
    LinkedText(rc.config.header, parts[1], url, parts[2..], parts[3], Tail(ContentOf(fullContent)));
  }

  /** A written text whose section has a compare link: line 3 is the link, and the URL reads back. */
  lemma LinkedText(header: string, line: string, url: string, rest: seq<string>, entries: string, tail: string)
    requires '\n' !in header && '\n' !in line && '\n' !in url && ')' !in url && url != ""
    requires rest == [CompareLink(url), entries]
    ensures LinkReadsBack(header + "\n" + ("\n" + line + "\n\n" + (Join(rest, "\n\n") + tail)), url)
  {
    var link := CompareLink(url);
    var text := header + "\n" + ("\n" + line + "\n\n" + (Join(rest, "\n\n") + tail));
    JoinPair(link, entries, "\n\n");
    CompareLinkOneLine(url);
    LinkLine(header, line, link, entries, tail);
    CompareUrlReadBack(Some(text), url);
  }

  lemma LastTwo(parts: seq<string>)
    requires |parts| == 4
    ensures parts[2..] == [parts[2], parts[3]]
  {
  }

  /** Two parts joined. */
  lemma JoinPair(a: string, b: string, sep: string)
    ensures Join([a, b], sep) == a + sep + b
  {
    assert [a, b][1..] == [b];
  }

  /** A compare link holds no line break when its URL holds none. */
  lemma CompareLinkOneLine(url: string)
    requires '\n' !in url
    ensures '\n' !in CompareLink(url)
  {
  }

  /** The compare link on line 3 of a written text. */
  lemma LinkLine(header: string, line: string, link: string, entries: string, tail: string)
    requires '\n' !in header && '\n' !in line && '\n' !in link
    ensures var text := header + "\n" + ("\n" + line + "\n\n" + (link + "\n\n" + entries + tail));
      |LinesOf(Some(text))| > 3 && LinesOf(Some(text))[3] == link
  {
    var after := entries + tail;
    var body := link + "\n\n" + entries + tail;
    assert body == link + ['\n'] + ("\n" + after);
    var text := header + "\n" + ("\n" + line + "\n\n" + body);
    RemoveHeaderSpec(header, "\n" + line + "\n\n" + body);
    HeadLines(line, body);
    SplitCons(link, "\n" + after, '\n');
    assert LinesOf(Some(text)) == ["", line, ""] + ([link] + Split("\n" + after, '\n'));
  }

  /** A compare link on line 3 gives its URL back through `latestCompareChangesUrl`. */
  lemma CompareUrlReadBack(fullContent: Option<string>, url: string)
    requires ')' !in url
    requires |LinesOf(fullContent)| > 3 && LinesOf(fullContent)[3] == CompareLink(url) && url != ""
    ensures LatestCompareChangesUrlOf(fullContent) == url
  {
    ReplaceFirstAtStart("[compare changes](", url + ")");
    assert CompareLink(url) == "[compare changes](" + (url + ")");
    RemoveClosingParen(url);
  }

  /** The version line, with its header prefix removed, still carries the date, so the string constructor rejects it. */
  lemma DatedLineRejected(next: Version, config: Types.Config, today: Date)
    ensures FromString(ReplaceFirst(VersionLine(next, config, today), HeaderPrefix(config), "")).Err?
  {
    var rest := next.ToString("", Some(today));
    PrefixRegroup(HeaderPrefix(config), next.VersionString(), " - ", FormatDate(today));
    DatedVersionRejected(next, today);
    StrippedRejected(HeaderPrefix(config), rest);
  }

  lemma PrefixRegroup(p: string, x: string, y: string, z: string)
    ensures p + x + y + z == p + ("" + x + y + z)
  {
  }

  /** Stripping a prefix from a text the string constructor rejects leaves a text it rejects. */
  lemma StrippedRejected(p: string, rest: string)
    requires FromString(rest).Err?
    ensures FromString(ReplaceFirst(p + rest, p, "")).Err?
  {
    ReplaceFirstAtStart(p, rest);
  }

  /**
    Reading back what was just written: line 1 of the new content is the
    dated version line. The getters strip only the header prefix and hand the
    rest, date included, to the string constructor, so `prevVersion`,
    `latestVersion` and `nextVersion` all throw on the new file, while the
    prefix-anchored `Version.parse` recovers the written version.
  */
  lemma ReloadAfterWrite(fullContent: Option<string>, rc: RuntimeConfig, repo: Option<string>, commits: seq<Commit>, today: Date)
    requires NewContentOf(fullContent, rc, repo, commits, today).Ok?
    requires '\n' !in rc.config.header && '\n' !in rc.config.versionPrefix
    ensures var text := NewContentOf(fullContent, rc, repo, commits, today).value;
      && PrevVersionOf(Some(text), rc.config).Err?
      && LatestVersionOf(Some(text), rc.config).Err?
      && NextVersionOf(Some(text), rc).Err?
      && Parse(LinesOf(Some(text))[1], rc.config.versionPrefix) == Ok(NextVersionOf(fullContent, rc).value)
  {
    var text := NewContentOf(fullContent, rc, repo, commits, today).value;
    var line := VersionLine(NextVersionOf(fullContent, rc).value, rc.config, today);
    WrittenLayout(fullContent, rc, repo, commits, today);
    LayoutLine(LinesOf(Some(text)), line, LinesOf(fullContent), ContentOf(fullContent) == "");
    VersionLineRead(text, NextVersionOf(fullContent, rc).value, rc, today);
  }

  /** A text whose line 1 (below the header) is a dated version line. */
  lemma VersionLineRead(text: string, next: Version, rc: RuntimeConfig, today: Date)
    requires '\n' !in rc.config.versionPrefix
    requires |LinesOf(Some(text))| > 1 && LinesOf(Some(text))[1] == VersionLine(next, rc.config, today)
    ensures PrevVersionOf(Some(text), rc.config).Err?
    ensures LatestVersionOf(Some(text), rc.config).Err?
    ensures NextVersionOf(Some(text), rc).Err?
    ensures Parse(LinesOf(Some(text))[1], rc.config.versionPrefix) == Ok(next)
  {
    var line := VersionLine(next, rc.config, today);
    VersionLineIsOneLine(next, rc.config, today);
    TrimUnchanged(line);
    assert TrimmedLine(Some(text), 1) == Some(line);
    DatedLineRejected(next, rc.config, today);
    ParseToString(next, rc.config.versionPrefix, Some(today));
  }

  /** What the hash lookup hands back: the hash, or `null` when there is none. */
  function HashOrNull(hash: Option<string>): (r: Nullable)
    ensures r.Str? <==> hash.Some?
    ensures r.Str? ==> r.s == hash.value
    ensures r.Null? <==> hash.None?
  {
    match hash
    case None => Null
    case Some(h) => Str(h)
  }

  /**
    The commit `updateLatestCommit` looks up for a readable line 1: `null`
    without a previous release, otherwise the hash stored under the previous
    release's name, which `toString` dates.
  */
  function CommitOfRelease(prev: Option<Version>, prefix: string, today: Date, versionToCommitHash: string -> Option<string>): Nullable {
    match prev
    case None => Null
    case Some(v) => HashOrNull(versionToCommitHash(v.ToString(prefix, Some(today))))
  }

  /** `latestCommit` after `updateLatestCommit`: unchanged when line 1 cannot be read, else the looked-up commit. */
  predicate LatestCommitAfter(prev: Result<Option<Version>>, before: Nullable, after: Nullable,
                              prefix: string, today: Date, versionToCommitHash: string -> Option<string>) {
    if prev.Err? then after == before else after == CommitOfRelease(prev.value, prefix, today, versionToCommitHash)
  }

  // ---------------------------------------------------------------------------
  // The object

  /** The changelog of one run, over an abstract file (`None` when the file does not exist). */
  class Changelog {
    const rc: RuntimeConfig
    const repositoryUrl: Option<string>
    var fullContent: Option<string>
    var latestCommit: Nullable
    var file: Option<string>

    constructor (rc: RuntimeConfig, repositoryUrl: Option<string>, file: Option<string>)
      ensures this.rc == rc && this.repositoryUrl == repositoryUrl && this.file == file
      ensures fullContent.None? && latestCommit.Undefined?
    {
      this.rc := rc;
      this.repositoryUrl := repositoryUrl;
      this.file := file;
      fullContent := None;
      latestCommit := Undefined;
    }

    /**
      `updateLatestCommit()`: the commit of the previous release looked up by
      its name (which `toString` dates), `null` without a previous release.
      Throws, changing nothing, when the version line cannot be read.
    */
    method UpdateLatestCommit(today: Date, versionToCommitHash: string -> Option<string>) returns (outcome: Outcome)
      modifies this`latestCommit
      ensures PrevVersionOf(fullContent, rc.config).Err? <==> outcome.Failed?
      ensures outcome.Failed? ==> latestCommit == old(latestCommit)
      ensures PrevVersionOf(fullContent, rc.config) == Ok(None) ==> latestCommit == Null
      ensures PrevVersionOf(fullContent, rc.config).Ok? && PrevVersionOf(fullContent, rc.config).value.Some? ==>
        latestCommit == HashOrNull(versionToCommitHash(
          PrevVersionOf(fullContent, rc.config).value.value.ToString(rc.config.versionPrefix, Some(today))))
      ensures LatestCommitAfter(PrevVersionOf(fullContent, rc.config), old(latestCommit), latestCommit,
                                rc.config.versionPrefix, today, versionToCommitHash)
    {
      var prev := PrevVersionOf(fullContent, rc.config);
      if prev.Err? {
        outcome := Failed(prev.message);
      } else if prev.value.None? {
        latestCommit := Null;
        outcome := Done;
      } else {
        latestCommit := HashOrNull(versionToCommitHash(prev.value.value.ToString(rc.config.versionPrefix, Some(today))));
        outcome := Done;
      }
    }

    /**
      `load()`: read the file, or create it holding the placeholder and start
      from empty text; then look up the previous release's commit.
    */
    method Load(today: Date, versionToCommitHash: string -> Option<string>) returns (outcome: Outcome)
      modifies this
      ensures fullContent == Some(old(file).GetOr(""))
      ensures file == if old(file).Some? then old(file) else Some(Placeholder)
      ensures PrevVersionOf(fullContent, rc.config).Err? <==> outcome.Failed?
      ensures LatestCommitAfter(PrevVersionOf(fullContent, rc.config), old(latestCommit), latestCommit,
                                rc.config.versionPrefix, today, versionToCommitHash)
    {
      if file.Some? {
        fullContent := file;
      } else {
        fullContent := Some("");
        file := Some(Placeholder);
      }
      outcome := UpdateLatestCommit(today, versionToCommitHash);
    }

    /**
      `writeChanges(commits)`: with no commits only reload; otherwise write the
      new text to the file and reload it. Nothing is written when building the
      text throws.
    */
    method WriteChanges(commits: seq<Commit>, today: Date, versionToCommitHash: string -> Option<string>)
      returns (outcome: Outcome)
      modifies this
      ensures |commits| == 0 ==> file == if old(file).Some? then old(file) else Some(Placeholder)
      ensures |commits| == 0 ==>
        fullContent == Some(old(file).GetOr("")) && (outcome.Failed? <==> PrevVersionOf(fullContent, rc.config).Err?)
      ensures |commits| > 0 && NewContentOf(old(fullContent), rc, repositoryUrl, commits, today).Err? ==>
        outcome.Failed? && file == old(file) && fullContent == old(fullContent) && latestCommit == old(latestCommit)
      ensures |commits| > 0 && NewContentOf(old(fullContent), rc, repositoryUrl, commits, today).Ok? ==>
        var text := NewContentOf(old(fullContent), rc, repositoryUrl, commits, today).value;
        file == Some(text) && fullContent == Some(text)
          && (outcome.Failed? <==> PrevVersionOf(Some(text), rc.config).Err?)
      ensures |commits| == 0 || NewContentOf(old(fullContent), rc, repositoryUrl, commits, today).Ok? ==>
        LatestCommitAfter(PrevVersionOf(fullContent, rc.config), old(latestCommit), latestCommit,
                          rc.config.versionPrefix, today, versionToCommitHash)
      ensures (|commits| > 0 && NewContentOf(old(fullContent), rc, repositoryUrl, commits, today).Ok?
               && '\n' !in rc.config.header && '\n' !in rc.config.versionPrefix) ==> outcome.Failed?
    {
      if |commits| == 0 {
        outcome := Load(today, versionToCommitHash);
        return;
      }
      match NewContentOf(fullContent, rc, repositoryUrl, commits, today)
      case Err(e) =>
        outcome := Failed(e);
      case Ok(text) =>
        outcome := WriteText(text, today, versionToCommitHash);
        if '\n' !in rc.config.header && '\n' !in rc.config.versionPrefix {
          ReloadAfterWrite(old(fullContent), rc, repositoryUrl, commits, today);
        }
    }

    /** Write `text` to the file and reload it. */
    method WriteText(text: string, today: Date, versionToCommitHash: string -> Option<string>) returns (outcome: Outcome)
      modifies this
      ensures file == Some(text) && fullContent == Some(text)
      ensures outcome.Failed? <==> PrevVersionOf(Some(text), rc.config).Err?
      ensures LatestCommitAfter(PrevVersionOf(Some(text), rc.config), old(latestCommit), latestCommit,
                                rc.config.versionPrefix, today, versionToCommitHash)
    {
      file := Some(text);
      outcome := Load(today, versionToCommitHash);
    }

    /** `delete()`: remove the file; removing a file that does not exist fails. */
    method Delete() returns (outcome: Outcome)
      modifies this`file
      ensures file.None?
      ensures outcome.Failed? <==> old(file).None?
    {
      if file.None? {
        outcome := Failed("ENOENT: no such file or directory");
      } else {
        file := None;
        outcome := Done;
      }
    }
  }
}
