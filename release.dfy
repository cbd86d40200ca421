/**
  Reading a changelog back: the text is cut into release blocks, and each
  block yields its version and the commit hashes of its ``[`hash`](https://…)``
  links.
*/
module Releases {
  import opened Base
  import opened Types
  import opened Config
  import opened Versions
  import opened GitRepository
  import opened Commits
  import opened ChangelogFile

  /** One release block with its version and the hashes it links to. */
  datatype Release = Release(content: string, version: Version, commits: seq<string>)

  // ---------------------------------------------------------------------------
  // The hash-link pattern ``\[`([a-f0-9]{7,40})`\]\(https:\/\/[^\)]+\)``

  /** The part of the link between the hash and the URL's remainder. */
  const LinkMiddle: string := "`](https://"

  /** Length of the run of lower-case hex digits starting at `i`. */
  function HexRun(s: string, i: nat): (n: nat)
    requires i <= |s|
    ensures i + n <= |s|
    ensures forall m :: i <= m < i + n ==> IsLowerHex(s[m])
    ensures i + n == |s| || !IsLowerHex(s[i + n])
    decreases |s| - i
  {
    if i < |s| && IsLowerHex(s[i]) then 1 + HexRun(s, i + 1) else 0
  }

  /** Length of the run of characters other than `)` starting at `i`. */
  function NonParenRun(s: string, i: nat): (n: nat)
    requires i <= |s|
    ensures i + n <= |s|
    ensures forall m :: i <= m < i + n ==> s[m] != ')'
    ensures i + n == |s| || s[i + n] == ')'
    decreases |s| - i
  {
    if i < |s| && s[i] != ')' then 1 + NonParenRun(s, i + 1) else 0
  }

  /**
    The pattern matches at `p` with a hash of `k` hex digits and a URL
    remainder of `m` characters: `[`, a backquote, the hash, ``` `](https:// ```,
    the remainder (no `)` in it) and a closing `)`.
  */
  predicate LinkMatch(s: string, p: nat, k: nat, m: nat) {
    var u := p + 2 + k + |LinkMiddle|;
    && u + m < |s|
    && s[p] == '[' && s[p + 1] == '`'
    && 7 <= k <= 40 && (forall i :: p + 2 <= i < p + 2 + k ==> IsLowerHex(s[i]))
    && s[p + 2 + k..u] == LinkMiddle
    && 1 <= m && (forall i :: u <= i < u + m ==> s[i] != ')')
    && s[u + m] == ')'
  }

  /**
    The match at `p`, if any: the captured hash and the index just after the
    match. The backquote after the hash is not a hex digit and the `)` ends
    the remainder, so the greedy runs are the only candidates.
  */
  function LinkAt(s: string, p: nat): Option<(string, nat)> {
    if p + 2 > |s| || s[p] != '[' || s[p + 1] != '`' then None
    else
      var k := HexRun(s, p + 2);
      var u := p + 2 + k + |LinkMiddle|;
      if k < 7 || 40 < k || u > |s| || s[p + 2 + k..u] != LinkMiddle then None
      else
        var m := NonParenRun(s, u);
        if m == 0 || u + m == |s| then None
        else Some((s[p + 2..p + 2 + k], u + m + 1))
  }

  /** Every match of the pattern is found by `LinkAt`, with its hash and its end. */
  lemma LinkAtComplete(s: string, p: nat, k: nat, m: nat)
    requires LinkMatch(s, p, k, m)
    ensures LinkAt(s, p) == Some((s[p + 2..p + 2 + k], p + 2 + k + |LinkMiddle| + m + 1))
  {
    HexRunOf(s, p + 2, k);
    assert s[p + 2 + k] == LinkMiddle[0];
    NonParenRunOf(s, p + 2 + k + |LinkMiddle|, m);
  }

  /** What `LinkAt` finds is a match of the pattern. */
  lemma LinkAtSound(s: string, p: nat)
    requires LinkAt(s, p).Some?
    ensures p + 2 <= |s|
    ensures LinkMatch(s, p, HexRun(s, p + 2), NonParenRun(s, p + 2 + HexRun(s, p + 2) + |LinkMiddle|))
    ensures LinkAt(s, p).value.0 == s[p + 2..p + 2 + HexRun(s, p + 2)]
  {
  }

  lemma {:induction false} HexRunOf(s: string, i: nat, k: nat)
    requires i + k < |s| && (forall j :: i <= j < i + k ==> IsLowerHex(s[j])) && !IsLowerHex(s[i + k])
    ensures HexRun(s, i) == k
    decreases k
  {
    if k > 0 {
      HexRunOf(s, i + 1, k - 1);
    }
  }

  lemma {:induction false} NonParenRunOf(s: string, i: nat, m: nat)
    requires i + m < |s| && (forall j :: i <= j < i + m ==> s[j] != ')') && s[i + m] == ')'
    ensures NonParenRun(s, i) == m
    decreases m
  {
    if m > 0 {
      NonParenRunOf(s, i + 1, m - 1);
    }
  }

  /** `line.matchAll(regex)` from index `p`, keeping the captured hashes: after a match the search resumes at its end. */
  function HashesFrom(s: string, p: nat): seq<string>
    decreases |s| - p
  {
    if p >= |s| then []
    else
      match LinkAt(s, p)
      case Some((hash, end)) => [hash] + HashesFrom(s, end)
      case None => HashesFrom(s, p + 1)
  }

  /** The hashes linked from one line. */
  function LineHashes(line: string): seq<string> {
    HashesFrom(line, 0)
  }

  /** `lines.flatMap(...)`: the hashes of every line, in line order. */
  function Hashes(lines: seq<string>): seq<string> {
    if |lines| == 0 then [] else LineHashes(lines[0]) + Hashes(lines[1..])
  }

  /** Every hash read from a line is a run of 7 to 40 lower-case hex digits. */
  lemma {:induction false} HashesFromAreHashes(s: string, p: nat)
    ensures forall h :: h in HashesFrom(s, p) ==> IsHash(h)
    decreases |s| - p
  {
    if p < |s| {
      match LinkAt(s, p)
      case Some((hash, end)) =>
        LinkAtSound(s, p);
        assert IsHash(hash);
        HashesFromAreHashes(s, end);
      case None =>
        HashesFromAreHashes(s, p + 1);
    }
  }

  /** `flatMap` over lines: the hashes of two runs of lines are those of the first run, then those of the second. */
  lemma {:induction false} HashesAppend(a: seq<string>, b: seq<string>)
    ensures Hashes(a + b) == Hashes(a) + Hashes(b)
    decreases |a|
  {
    if |a| > 0 {
      assert (a + b)[0] == a[0];
      assert (a + b)[1..] == a[1..] + b;
      HashesAppend(a[1..], b);
      calc {
        Hashes(a + b);
        LineHashes(a[0]) + Hashes(a[1..] + b);
        LineHashes(a[0]) + (Hashes(a[1..]) + Hashes(b));
        (LineHashes(a[0]) + Hashes(a[1..])) + Hashes(b);
      }
    } else {
      assert a + b == b;
    }
  }

  /** Every hash read from a run of lines is a hash of a line among them. */
  lemma {:induction false} HashesOfLines(lines: seq<string>)
    ensures forall h :: h in Hashes(lines) ==> IsHash(h) && exists i :: 0 <= i < |lines| && h in LineHashes(lines[i])
    decreases |lines|
  {
    if |lines| > 0 {
      HashesFromAreHashes(lines[0], 0);
      HashesOfLines(lines[1..]);
      forall h | h in Hashes(lines)
        ensures IsHash(h) && exists i :: 0 <= i < |lines| && h in LineHashes(lines[i])
      {
        if h in LineHashes(lines[0]) {
        } else {
          var i :| 0 <= i < |lines[1..]| && h in LineHashes(lines[1..][i]);
          assert lines[1..][i] == lines[i + 1];
        }
      }
    }
  }

  /** A match contributes its hash, and the search goes on at its end. */
  lemma HashesAtMatch(s: string, p: nat)
    requires p < |s| && LinkAt(s, p).Some?
    ensures HashesFrom(s, p) == [LinkAt(s, p).value.0] + HashesFrom(s, LinkAt(s, p).value.1)
  {
  }

  /** Characters that cannot start a match contribute nothing. */
  lemma {:induction false} SkipPlainText(s: string, p: nat, q: nat)
    requires p <= q <= |s|
    requires forall i :: p <= i < q ==> s[i] != '['
    ensures HashesFrom(s, p) == HashesFrom(s, q)
    decreases q - p
  {
    if p < q {
      SkipPlainText(s, p + 1, q);
    }
  }

  // ---------------------------------------------------------------------------
  // One release

  /**
    The release block a text describes: the first line must match the
    prefixed version header (otherwise the constructor throws); the next
    line is skipped, the one after is taken as the compare link, and one
    more line is skipped when that link is not blank. The remaining lines
    are searched for hash links.
  */
  function ReleaseOf(content: string, prefix: string): (r: Result<Release>)
    ensures r.Ok? <==> Parse(Split(content, '\n')[0], prefix).Ok?
    ensures r.Ok? ==> r.value.content == content && r.value.version == Parse(Split(content, '\n')[0], prefix).value
  {
    var lines := Split(content, '\n');
    match Parse(lines[0], prefix)
    case Err(e) => Err(e)
    case Ok(v) =>
      var skip := if |lines| > 2 && Trim(lines[2]) != "" then 4 else 3;
      var body := if skip <= |lines| then lines[skip..] else [];
      Ok(Release(content, v, Hashes(body)))
  }

  /** The constructor's own steps: the lines are shifted off one at a time. */
  method NewRelease(content: string, prefix: string) returns (r: Result<Release>)
    ensures r == ReleaseOf(content, prefix)
  {
    var lines := Split(content, '\n');
    var first := lines[0];
    lines := lines[1..];
    var version := Parse(first, prefix);
    if version.Err? {
      return Err(version.message);
    }
    if |lines| > 0 {
      lines := lines[1..];
    }
    var compareLink: Option<string> := None;
    if |lines| > 0 {
      compareLink := Some(lines[0]);
      lines := lines[1..];
    }
    if compareLink.Some? && Trim(compareLink.value) != "" && |lines| > 0 {
      lines := lines[1..];
    }
    r := Ok(Release(content, version.value, Hashes(lines)));
  }

  /** `toString()`: the dated version, then the hashes in brackets. */
  function ReleaseToString(r: Release, today: Date): (s: string)
    ensures StartsWith(s, r.version.ToString("", Some(today)) + "[") && s[|s| - 1] == ']'
    ensures s[|r.version.ToString("", Some(today)) + "["|..|s| - 1] == Join(r.commits, ", ")
  {
    var s := r.version.ToString("", Some(today)) + "[" + Join(r.commits, ", ") + "]";
    assert s[..|r.version.ToString("", Some(today)) + "["|] == r.version.ToString("", Some(today)) + "[";
    s
  }

  // ---------------------------------------------------------------------------
  // Splitting a changelog into releases

  /** The split pattern `(?=## \d+\.\d+\.\d+)` matches (without consuming anything) at `q`. */
  predicate HeaderAt(s: string, q: nat) {
    q + |VersionHeader| <= |s| && s[q..q + |VersionHeader|] == VersionHeader && TripleEnd(s, q + |VersionHeader|).Some?
  }

  /**
    Where `s.split(lookahead)` cuts, from index `q` on: at every index where
    the pattern matches. The scan starts at 1, because a match at the start
    of the last piece (the start of the text, or the previous cut) is skipped.
  */
  function CutsFrom(s: string, q: nat): seq<nat>
    decreases |s| - q
  {
    if q >= |s| then []
    else if HeaderAt(s, q) then [q] + CutsFrom(s, q + 1)
    else CutsFrom(s, q + 1)
  }

  /** The cuts are exactly the header positions from `q` on, in increasing order. */
  lemma CutsFromSpec(s: string, q: nat)
    ensures forall x :: x in CutsFrom(s, q) <==> q <= x < |s| && HeaderAt(s, x)
    ensures forall i, j :: 0 <= i < j < |CutsFrom(s, q)| ==> CutsFrom(s, q)[i] < CutsFrom(s, q)[j]
  {
    CutsFromMembers(s, q);
    CutsFromIncreasing(s, q);
  }

  lemma {:induction false} CutsFromMembers(s: string, q: nat)
    ensures forall x :: x in CutsFrom(s, q) <==> q <= x < |s| && HeaderAt(s, x)
    decreases |s| - q
  {
    if q < |s| {
      CutsFromMembers(s, q + 1);
    }
  }

  lemma {:induction false} CutsFromIncreasing(s: string, q: nat)
    ensures forall i, j :: 0 <= i < j < |CutsFrom(s, q)| ==> CutsFrom(s, q)[i] < CutsFrom(s, q)[j]
    decreases |s| - q
  {
    if q < |s| {
      CutsFromIncreasing(s, q + 1);
      CutsFromMembers(s, q + 1);
      var rest := CutsFrom(s, q + 1);
      assert forall j :: 0 <= j < |rest| ==> rest[j] in rest;
    }
  }

  /** The piece boundaries: the start, every cut and the end. */
  function Bounds(s: string): (b: seq<nat>)
    ensures |b| >= 2 && b[0] == 0 && b[|b| - 1] == |s|
    ensures Ordered(b, |s|)
  {
    CutsFromSpec(s, 1);
    EnclosedOrdered(CutsFrom(s, 1), |s|);
    [0] + CutsFrom(s, 1) + [|s|]
  }

  /** Increasing positions below `n`, with 0 before them and `n` after them, never go back. */
  lemma EnclosedOrdered(cuts: seq<nat>, n: nat)
    requires forall x :: x in cuts ==> x < n
    requires forall i, j :: 0 <= i < j < |cuts| ==> cuts[i] < cuts[j]
    ensures Ordered([0] + cuts + [n], n)
  {
    var b := [0] + cuts + [n];
    assert forall k :: 0 <= k < |cuts| ==> cuts[k] in cuts;
    assert forall k :: 0 < k < |b| - 1 ==> b[k] == cuts[k - 1];
    assert forall k :: 0 < k < |b| - 2 ==> b[k] < b[k + 1];
  }

  /** Boundaries that never go back and stay within a text of length `n`. */
  predicate Ordered(b: seq<nat>, n: nat) {
    (forall k :: 0 <= k < |b| ==> b[k] <= n) && (forall k :: 0 <= k < |b| - 1 ==> b[k] <= b[k + 1])
  }

  /** The inner boundaries are exactly the version headers after the first character. */
  lemma BoundsSpec(s: string)
    ensures forall k :: 0 < k < |Bounds(s)| - 1 ==> 0 < Bounds(s)[k] && HeaderAt(s, Bounds(s)[k])
    ensures forall x :: 0 < x < |s| && HeaderAt(s, x) ==> x in Bounds(s)
  {
    CutsFromSpec(s, 1);
    var cuts := CutsFrom(s, 1);
    var b := Bounds(s);
    assert forall k :: 0 < k < |b| - 1 ==> b[k] == cuts[k - 1];
    assert forall k :: 0 < k < |b| - 1 ==> b[k] in cuts;
    assert forall x :: x in cuts ==> x in b;
  }

  /** The text between consecutive boundaries. */
  function Slices(s: string, b: seq<nat>): (r: seq<string>)
    requires |b| >= 1 && Ordered(b, |s|)
    ensures |r| == |b| - 1
    ensures forall k :: 0 <= k < |r| ==> r[k] == s[b[k]..b[k + 1]]
  {
    seq(|b| - 1, k requires 0 <= k < |b| - 1 => s[b[k]..b[k + 1]])
  }

  /** The release blocks of a text: `s.split` before every version header but the one at the very start. */
  function Chunks(s: string): (r: seq<string>)
    ensures |r| >= 1
    ensures Flatten(r) == s
  {
    SlicesFlatten(s, Bounds(s));
    Slices(s, Bounds(s))
  }

  /** The slices between sorted boundaries put back together give the text between the first and the last. */
  lemma {:induction false} SlicesFlatten(s: string, b: seq<nat>)
    requires |b| >= 1 && Ordered(b, |s|)
    ensures b[0] <= b[|b| - 1] && Flatten(Slices(s, b)) == s[b[0]..b[|b| - 1]]
    decreases |b|
  {
    if |b| > 1 {
      var tail := b[1..];
      assert forall k :: 0 <= k < |tail| ==> tail[k] == b[k + 1];
      assert Ordered(tail, |s|);
      SlicesFlatten(s, tail);
      SlicesTail(s, b);
      SliceSplit(s, b[0], b[1], b[|b| - 1]);
    }
  }

  /** Dropping the first boundary drops the first slice. */
  lemma SlicesTail(s: string, b: seq<nat>)
    requires |b| >= 2 && Ordered(b, |s|) && Ordered(b[1..], |s|)
    ensures Slices(s, b)[1..] == Slices(s, b[1..])
  {
    var r, t := Slices(s, b), Slices(s, b[1..]);
    assert forall k :: 0 <= k < |b| - 1 ==> b[1..][k] == b[k + 1];
    assert forall k :: 0 <= k < |t| ==> r[1..][k] == r[k + 1];
  }

  /** A slice is the slice up to a middle index followed by the slice from it. */
  lemma SliceSplit(s: string, i: nat, j: nat, k: nat)
    requires i <= j <= k <= |s|
    ensures s[i..k] == s[i..j] + s[j..k]
  {
  }

  /**
    Splitting loses nothing: the blocks put back together give the text.
    Every block after the first starts where a version header starts, and
    every version header after the first character starts a block.
  */
  lemma ChunksRoundTrip(s: string)
    ensures Flatten(Chunks(s)) == s
    ensures forall k :: 1 <= k < |Chunks(s)| ==> HeaderAt(s, Bounds(s)[k]) && Chunks(s)[k] == s[Bounds(s)[k]..Bounds(s)[k + 1]]
    ensures forall x :: 0 < x < |s| && HeaderAt(s, x) ==> x in Bounds(s)
  {
    BoundsSpec(s);
  }

  /** A `"## "` not followed by a digit, as in a header written with a prefix such as `v`, is not a cut. */
  lemma PrefixedHeaderNotCut(s: string, q: nat)
    requires q + |VersionHeader| < |s| && !IsDigit(s[q + |VersionHeader|])
    ensures !HeaderAt(s, q)
  {
  }

  /**
    `Release.parse(raw)`: nothing for empty text; otherwise one release per
    block of the trimmed text, the first block that fails to parse failing
    the whole call.
  */
  function ParseReleases(raw: string, prefix: string): (r: Result<seq<Release>>)
    ensures raw == "" ==> r == Ok([])
    ensures raw != "" ==> (r.Ok? <==> forall i :: 0 <= i < |Chunks(Trim(raw))| ==> ReleaseOf(Chunks(Trim(raw))[i], prefix).Ok?)
    ensures raw != "" && r.Ok? ==> |r.value| == |Chunks(Trim(raw))|
    ensures raw != "" && r.Ok? ==>
      forall i :: 0 <= i < |r.value| ==> r.value[i] == ReleaseOf(Chunks(Trim(raw))[i], prefix).value
  {
    if raw == "" then Ok([]) else ReleasesOf(Chunks(Trim(raw)), prefix)
  }

  /** `chunks.map(content => new Release(content))`, failing at the first block that throws. */
  function ReleasesOf(chunks: seq<string>, prefix: string): (r: Result<seq<Release>>)
    ensures r.Ok? <==> forall i :: 0 <= i < |chunks| ==> ReleaseOf(chunks[i], prefix).Ok?
    ensures r.Ok? ==> |r.value| == |chunks| && forall i :: 0 <= i < |chunks| ==> r.value[i] == ReleaseOf(chunks[i], prefix).value
  {
    MapAll(chunks, chunk => ReleaseOf(chunk, prefix))
  }


  // ---------------------------------------------------------------------------
  // Reading back what the writer produced

  /** A full or abbreviated commit hash as the pattern accepts it: 7 to 40 lower-case hex digits. */
  predicate IsHash(h: string) {
    7 <= |h| <= 40 && forall i :: 0 <= i < |h| ==> IsLowerHex(h[i])
  }

  /** The layout of a line with one hash link: where the match is and what follows it. */
  lemma OneLinkLayout(before: string, h: string, rest: string, after: string)
    requires IsHash(h) && rest != "" && ')' !in rest
    ensures var s := before + "[`" + h + LinkMiddle + rest + ")" + after;
      && LinkMatch(s, |before|, |h|, |rest|)
      && s[|before| + 2..|before| + 2 + |h|] == h
      && s[..|before|] == before
      && s[|before| + 2 + |h| + |LinkMiddle| + |rest| + 1..] == after
  {
    var s := before + "[`" + h + LinkMiddle + rest + ")" + after;
    var p := |before|;
    var u := p + 2 + |h| + |LinkMiddle|;
    assert s[p..p + 2] == "[`";
    assert s[p + 2..p + 2 + |h|] == h;
    assert s[p + 2 + |h|..u] == LinkMiddle;
    assert s[u..u + |rest|] == rest;
    assert s[u + |rest|] == ')';
  }

  /** A text with one match and no other `[` yields exactly the hash of that match. */
  lemma HashesOfOneMatch(s: string, p: nat, k: nat, m: nat)
    requires LinkMatch(s, p, k, m)
    requires '[' !in s[..p] && '[' !in s[p + 2 + k + |LinkMiddle| + m + 1..]
    ensures LineHashes(s) == [s[p + 2..p + 2 + k]]
  {
    var e := p + 2 + k + |LinkMiddle| + m + 1;
    LinkAtComplete(s, p, k, m);
    HashesAtMatch(s, p);
    assert forall i :: 0 <= i < p ==> s[i] == s[..p][i];
    SkipPlainText(s, 0, p);
    assert forall i :: e <= i < |s| ==> s[i] == s[e..][i - e];
    SkipPlainText(s, e, |s|);
  }

  /** A line with exactly one hash link, and no other `[`, yields exactly that hash. */
  lemma OneLinkHashes(before: string, h: string, rest: string, after: string)
    requires '[' !in before && '[' !in after && IsHash(h) && rest != "" && ')' !in rest
    ensures LineHashes(before + "[`" + h + LinkMiddle + rest + ")" + after) == [h]
  {
    OneLinkLayout(before, h, rest, after);
    HashesOfOneMatch(before + "[`" + h + LinkMiddle + rest + ")" + after, |before|, |h|, |rest|);
  }

  /** A commit URL built from a repository URL without `)` has none either. */
  lemma CommitUrlNoParen(hash: string, provider: Option<Provider>, repo: Option<string>)
    requires ')' !in hash && (repo.Some? ==> ')' !in repo.value)
    ensures ')' !in CommitUrl(hash, provider, repo)
  {
  }

  /** A commit URL for an `https://` repository is `https://` followed by a non-empty text without `)`. */
  lemma CommitUrlRest(c: Commit, repo: Option<string>)
    requires IsHash(c.hash)
    requires Present(repo) && Hosted(c.provider) && StartsWith(repo.value, "https://") && ')' !in repo.value
    ensures var url := CommitUrl(c.hash, c.provider, repo);
      |url| > 8 && url == "https://" + url[8..] && ')' !in url[8..]
  {
    var url := CommitUrl(c.hash, c.provider, repo);
    assert forall i :: 0 <= i < |c.hash| ==> c.hash[i] != ')';
    CommitUrlNoParen(c.hash, c.provider, repo);
    assert StartsWith(url, repo.value + "/");
    assert url[..8] == "https://";
  }

  /** The commit entry spelled out around its link. */
  lemma CommitEntryShape(c: Commit, repo: Option<string>, rest: string)
    requires CommitUrl(c.hash, c.provider, repo) == "https://" + rest
    ensures CommitEntry(c, repo) == "- " + c.message + " (" + "[`" + c.hash + LinkMiddle + rest + ")" + ")"
  {
  }

  /**
    A commit entry written for an `https://` repository is read back as its
    commit's hash, provided the message holds no `[`.
  */
  lemma CommitEntryHashes(c: Commit, repo: Option<string>)
    requires '[' !in c.message && IsHash(c.hash)
    requires Present(repo) && Hosted(c.provider) && StartsWith(repo.value, "https://") && ')' !in repo.value
    ensures LineHashes(CommitEntry(c, repo)) == [c.hash]
  {
    CommitUrlRest(c, repo);
    var rest := CommitUrl(c.hash, c.provider, repo)[8..];
    CommitEntryShape(c, repo, rest);
    OneLinkHashes("- " + c.message + " (", c.hash, rest, ")");
  }

  /** A position where the pattern does not match contributes nothing. */
  lemma HashesNoMatchAt(s: string, p: nat)
    requires p < |s| && LinkAt(s, p).None?
    ensures HashesFrom(s, p) == HashesFrom(s, p + 1)
  {
  }

  /** A link with an empty URL does not match, so a line ending in one yields no hash. */
  lemma EmptyLinkHashes(s: string, p: nat, h: string)
    requires IsHash(h) && p <= |s| && '[' !in s[..p] && s[p..] == "[`" + h + "`]())"
    ensures LineHashes(s) == []
  {
    assert s[p + 2..p + 2 + |h|] == h;
    assert s[p + 2 + |h|] == '`';
    HexRunOf(s, p + 2, |h|);
    assert LinkAt(s, p).None?;
    HashesNoMatchAt(s, p);
    assert forall i :: 0 <= i < p ==> s[i] == s[..p][i];
    SkipPlainText(s, 0, p);
    assert forall i :: p + 1 <= i < |s| ==> s[i] == s[p..][i - p];
    SkipPlainText(s, p + 1, |s|);
  }

  /** Without a repository URL (or a known host) the commit link is empty and no hash is read back. */
  lemma UnlinkedCommitEntry(c: Commit, repo: Option<string>)
    requires '[' !in c.message && IsHash(c.hash)
    requires !Present(repo) || !Hosted(c.provider)
    ensures LineHashes(CommitEntry(c, repo)) == []
  {
    var before := "- " + c.message + " (";
    var s := CommitEntry(c, repo);
    assert s == before + ("[`" + c.hash + "`]())");
    assert s[..|before|] == before;
    EmptyLinkHashes(s, |before|, c.hash);
  }

  /** The lines of a version line, an empty line, a link line, an empty line and more text. */
  lemma SectionLines(line: string, link: string, body: string)
    requires '\n' !in line && '\n' !in link
    ensures Split(line + "\n\n" + link + "\n\n" + body, '\n') == [line, "", link, ""] + Split(body, '\n')
  {
    assert line + "\n\n" + link + "\n\n" + body
      == line + ['\n'] + ("" + ['\n'] + (link + ['\n'] + ("" + ['\n'] + body)));
    SplitCons(line, "" + ['\n'] + (link + ['\n'] + ("" + ['\n'] + body)), '\n');
    SplitCons("", link + ['\n'] + ("" + ['\n'] + body), '\n');
    SplitCons(link, "" + ['\n'] + body, '\n');
    SplitCons("", body, '\n');
  }

  /** The lines of a version line, an empty line and more text. */
  lemma UnlinkedSectionLines(line: string, body: string)
    requires '\n' !in line
    ensures Split(line + "\n\n" + body, '\n') == [line, ""] + Split(body, '\n')
  {
    assert line + "\n\n" + body == line + ['\n'] + ("" + ['\n'] + body);
    SplitCons(line, "" + ['\n'] + body, '\n');
    SplitCons("", body, '\n');
  }

  /**
    A release block laid out as the writer lays it out (dated version line,
    empty line, compare link, empty line, one entry per line) is read back
    as the written version and the hashes of exactly the entry lines.
  */
  lemma ReleaseOfSection(v: Version, config: Types.Config, today: Date, link: string, entries: seq<string>)
    requires '\n' !in config.versionPrefix && '\n' !in link && Trim(link) != ""
    requires |entries| >= 1 && forall e :: e in entries ==> '\n' !in e
    ensures var content := VersionLine(v, config, today) + "\n\n" + link + "\n\n" + Join(entries, "\n");
      ReleaseOf(content, config.versionPrefix) == Ok(Release(content, v, Hashes(entries)))
  {
    var line := VersionLine(v, config, today);
    VersionLineIsOneLine(v, config, today);
    SectionLines(line, link, Join(entries, "\n"));
    JoinSplit(entries, '\n');
    ParseToString(v, config.versionPrefix, Some(today));
    var lines := [line, "", link, ""] + entries;
    assert lines[4..] == entries;
  }

  /**
    Without a compare link the block's third line is the first entry, taken
    for the link; being non-blank, it makes the parser skip the second entry
    as well, so the hashes of the first two entries are lost.
  */
  lemma UnlinkedSectionDropsEntries(v: Version, config: Types.Config, today: Date, entries: seq<string>)
    requires '\n' !in config.versionPrefix
    requires |entries| >= 2 && Trim(entries[0]) != "" && forall e :: e in entries ==> '\n' !in e
    ensures var content := VersionLine(v, config, today) + "\n\n" + Join(entries, "\n");
      ReleaseOf(content, config.versionPrefix) == Ok(Release(content, v, Hashes(entries[2..])))
  {
    var line := VersionLine(v, config, today);
    VersionLineIsOneLine(v, config, today);
    UnlinkedSectionLines(line, Join(entries, "\n"));
    JoinSplit(entries, '\n');
    ParseToString(v, config.versionPrefix, Some(today));
    var content := line + "\n\n" + Join(entries, "\n");
    var lines := [line, ""] + entries;
    ShiftedByTwo(line, "", entries);
    ReleaseFromLines(content, config.versionPrefix, v, lines);
  }

  lemma ShiftedByTwo<T>(a: T, b: T, xs: seq<T>)
    requires |xs| >= 2
    ensures ([a, b] + xs)[2] == xs[0] && ([a, b] + xs)[4..] == xs[2..]
  {
  }

  /** `ReleaseOf` for a text whose lines are known, the compare-link line being non-blank. */
  lemma ReleaseFromLines(content: string, prefix: string, v: Version, lines: seq<string>)
    requires Split(content, '\n') == lines && |lines| >= 4 && Trim(lines[2]) != ""
    requires Parse(lines[0], prefix) == Ok(v)
    ensures ReleaseOf(content, prefix) == Ok(Release(content, v, Hashes(lines[4..])))
  {
  }

  /**
    Entry by entry: the changelog entries of commits that are not pull
    requests, all written for an `https://` repository, are read back as the
    commits' hashes in order.
  */
  lemma {:induction false} CommitEntriesHashes(cs: seq<Commit>, repo: Option<string>)
    requires Present(repo) && StartsWith(repo.value, "https://") && ')' !in repo.value
    requires forall c :: c in cs ==> !c.isPullRequest && '[' !in c.message && IsHash(c.hash) && Hosted(c.provider)
    ensures Entries(cs, repo).Ok?
    ensures var hashes := Hashes(Entries(cs, repo).value);
      |hashes| == |cs| && forall i :: 0 <= i < |cs| ==> hashes[i] == cs[i].hash
  {
    if |cs| > 0 {
      CommitEntryHashes(cs[0], repo);
      CommitEntriesHashes(cs[1..], repo);
      var entries := Entries(cs, repo).value;
      assert entries[1..] == Entries(cs[1..], repo).value;
      assert entries[0] == CommitEntry(cs[0], repo);
      var rest := Hashes(entries[1..]);
      assert Hashes(entries) == [cs[0].hash] + rest;
      assert forall i :: 1 <= i < |cs| ==> cs[i] == cs[1..][i - 1];
    }
  }
}
