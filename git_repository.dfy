/**
  Hosting-provider URL templates and remote-URL normalisation. The provider
  selects the pull-request, commit and compare URL shapes; `git@` remotes
  are rewritten to `https://{provider}.com/{user}/{repo}` by a hand-written
  equivalent of the capture regular expression.
*/
module GitRepository {
  import opened Base
  import opened Types
  import opened Config

  /** The providers that have URL templates: every one except plain `git`. */
  predicate Hosted(provider: Option<Provider>) {
    provider == Some(GitHub) || provider == Some(Bitbucket) || provider == Some(GitLab)
  }

  /** A URL made of the repository URL, a path between slashes and a last segment. */
  lemma SlashJoined(repo: string, path: string, last: string)
    requires 2 <= |path| && path[0] == '/' && path[|path| - 1] == '/'
    ensures StartsWith(repo + path + last, repo + "/") && EndsWith(repo + path + last, "/" + last)
  {
    var r := repo + path + last;
    assert r[..|repo| + 1] == repo + "/";
    assert r[|r| - |last| - 1..] == "/" + last;
  }

  /** A compare URL: the repository URL, a path from a slash, the previous version, dots and the next version. */
  lemma DotsJoined(repo: string, path: string, prev: string, dots: string, next: string)
    requires 1 <= |path| && path[0] == '/' && 2 <= |dots| && dots[|dots| - 2..] == ".."
    ensures var r := repo + path + prev + dots + next;
      StartsWith(r, repo + "/") && EndsWith(r, ".." + next)
  {
    var r := repo + path + prev + dots + next;
    assert r[..|repo| + 1] == repo + "/";
    assert r[|r| - |next| - 2..] == ".." + next by {
      assert r[|r| - |next| - 2..] == dots[|dots| - 2..] + next;
    }
  }

  /**
    `pullRequestUrl(number, provider, repositoryUrl)`: empty unless there is a
    repository URL and a non-zero number, and for `git` or no provider.
  */
  function PullRequestUrl(number: Option<nat>, provider: Option<Provider>, repo: Option<string>): (r: string)
    ensures r != "" <==> Present(repo) && number.Some? && number.value != 0 && Hosted(provider)
    ensures r != "" ==> StartsWith(r, repo.value + "/") && EndsWith(r, "/" + NatToString(number.value))
    ensures provider == Some(GitHub) && r != "" ==> r == repo.value + "/pull/" + NatToString(number.value)
    ensures provider == Some(Bitbucket) && r != "" ==> r == repo.value + "/pull-requests/" + NatToString(number.value)
    ensures provider == Some(GitLab) && r != "" ==> r == repo.value + "/merge_requests/" + NatToString(number.value)
  {
    if !Present(repo) || number.None? || number.value == 0 then ""
    else
      var n := NatToString(number.value);
      match provider
      case Some(GitHub) => SlashJoined(repo.value, "/pull/", n); repo.value + "/pull/" + n
      case Some(Bitbucket) => SlashJoined(repo.value, "/pull-requests/", n); repo.value + "/pull-requests/" + n
      case Some(GitLab) => SlashJoined(repo.value, "/merge_requests/", n); repo.value + "/merge_requests/" + n
      case _ => ""
  }

  /** `commitUrl(hash, provider, repositoryUrl)`: empty without a repository URL or a hosted provider. */
  function CommitUrl(hash: string, provider: Option<Provider>, repo: Option<string>): (r: string)
    ensures r != "" <==> Present(repo) && Hosted(provider)
    ensures r != "" ==> StartsWith(r, repo.value + "/") && EndsWith(r, "/" + hash)
    ensures provider == Some(GitHub) && r != "" ==> r == repo.value + "/commit/" + hash
    ensures provider == Some(Bitbucket) && r != "" ==> r == repo.value + "/commits/" + hash
    ensures provider == Some(GitLab) && r != "" ==> r == repo.value + "/-/commit/" + hash
  {
    if !Present(repo) then ""
    else
      match provider
      case Some(GitHub) => SlashJoined(repo.value, "/commit/", hash); repo.value + "/commit/" + hash
      case Some(Bitbucket) => SlashJoined(repo.value, "/commits/", hash); repo.value + "/commits/" + hash
      case Some(GitLab) => SlashJoined(repo.value, "/-/commit/", hash); repo.value + "/-/commit/" + hash
      case _ => ""
  }

  /**
    `compareUrl(prevVersion, nextVersion, provider, repositoryUrl)`: empty
    unless both the repository URL and the previous version are non-empty.
  */
  function CompareUrl(prev: Option<string>, next: string, provider: Option<Provider>, repo: Option<string>): (r: string)
    ensures r != "" <==> Present(repo) && Present(prev) && Hosted(provider)
    ensures r != "" ==> StartsWith(r, repo.value + "/") && EndsWith(r, ".." + next)
    ensures (provider == Some(GitHub) || provider == Some(GitLab)) && r != "" ==>
      r == repo.value + "/compare/" + prev.value + "..." + next
    ensures provider == Some(Bitbucket) && r != "" ==>
      r == repo.value + "/branches/compare/" + prev.value + ".." + next
  {
    if !(Present(repo) && Present(prev)) then ""
    else
      match provider
      case Some(GitHub) =>
        DotsJoined(repo.value, "/compare/", prev.value, "...", next);
        repo.value + "/compare/" + prev.value + "..." + next
      case Some(GitLab) =>
        DotsJoined(repo.value, "/compare/", prev.value, "...", next);
        repo.value + "/compare/" + prev.value + "..." + next
      case Some(Bitbucket) =>
        DotsJoined(repo.value, "/branches/compare/", prev.value, "..", next);
        repo.value + "/branches/compare/" + prev.value + ".." + next
      case _ => ""
  }

  /** `guessProvider(url)`: the first of github, gitlab, bitbucket whose name the URL contains. */
  function GuessProvider(url: string): (r: Option<Provider>)
    ensures r.Some? ==> Contains(url, ProviderName(r.value)) && r != Some(Git)
    ensures r.None? <==> !Contains(url, "github") && !Contains(url, "gitlab") && !Contains(url, "bitbucket")
    ensures Contains(url, "github") ==> r == Some(GitHub)
    ensures r == Some(Bitbucket) ==> !Contains(url, "github") && !Contains(url, "gitlab")
  {
    if Contains(url, "github") then Some(GitHub)
    else if Contains(url, "gitlab") then Some(GitLab)
    else if Contains(url, "bitbucket") then Some(Bitbucket)
    else None
  }

  // ---------------------------------------------------------------------------
  // `git@.+:(?<username>[a-zA-Z0-9-_]+)\/(?<repository>[a-zA-Z0-9-_]+).git`

  /** The class `[a-zA-Z0-9-_]`: letters, digits, `-` and `_`. */
  predicate IsNameChar(c: char) {
    'a' <= c <= 'z' || 'A' <= c <= 'Z' || IsDigit(c) || c == '-' || c == '_'
  }

  /** `s[lo..hi]` is a non-empty run of the name class. */
  predicate NamesIn(s: string, lo: int, hi: int) {
    0 <= lo < hi <= |s| && forall k :: lo <= k < hi ==> IsNameChar(s[k])
  }

  /** The repository name may end at `e`: one more non-terminator then `git` follow (`.git`). */
  predicate RepoEndOk(s: string, e: int) {
    0 <= e < |s| && !IsLineTerminator(s[e]) && OccursAt(s, "git", e + 1)
  }

  /** After the colon at `c`: the user name ends at the `/` at `m`, the repository name ends at `e`. */
  predicate ScpTail(s: string, c: int, m: int, e: int) {
    && NamesIn(s, c + 1, m) && m < |s| && s[m] == '/'
    && NamesIn(s, m + 1, e) && RepoEndOk(s, e)
  }

  /** The whole expression matches with `git@` at `g`, the colon at `c`, the captures `s[c+1..m]` and `s[m+1..e]`. */
  predicate ScpAt(s: string, g: int, c: int, m: int, e: int) {
    && OccursAt(s, "git@", g)
    && LineCharsIn(s, g + 4, c) && c < |s| && s[c] == ':'
    && ScpTail(s, c, m, e)
  }

  function NameRun(s: string, i: nat): (n: nat)
    requires i <= |s|
    ensures i + n <= |s|
    ensures forall k :: i <= k < i + n ==> IsNameChar(s[k])
    ensures i + n == |s| || !IsNameChar(s[i + n])
    decreases |s| - i
  {
    if i < |s| && IsNameChar(s[i]) then 1 + NameRun(s, i + 1) else 0
  }

  /** How far `.+` can reach from `i`: the run of characters that are not line terminators. */
  function LineRun(s: string, i: nat): (n: nat)
    requires i <= |s|
    ensures i + n <= |s|
    ensures forall k :: i <= k < i + n ==> !IsLineTerminator(s[k])
    ensures i + n == |s| || IsLineTerminator(s[i + n])
    decreases |s| - i
  {
    if i < |s| && !IsLineTerminator(s[i]) then 1 + LineRun(s, i + 1) else 0
  }

  /** The greedy repository capture backtracks from `e` down towards `p`: the last end that lets `.git` follow. */
  function LastRepoEnd(s: string, p: nat, e: nat): (r: Option<nat>)
    requires p <= e
    ensures r.Some? ==> p < r.value <= e && RepoEndOk(s, r.value)
    ensures forall k :: p < k <= e && RepoEndOk(s, k) ==> r.Some? && k <= r.value
    decreases e
  {
    if e == p then None
    else if RepoEndOk(s, e) then Some(e)
    else LastRepoEnd(s, p, e - 1)
  }

  /** The two captures after the colon at `c`, as the `/` position and the repository end. */
  function TailAt(s: string, c: nat): (r: Option<(nat, nat)>)
    requires c < |s|
    ensures r.Some? ==> ScpTail(s, c, r.value.0, r.value.1)
    ensures forall m, e :: ScpTail(s, c, m, e) ==> r.Some? && m == r.value.0 && e <= r.value.1
  {
    var n := NameRun(s, c + 1);
    var m := c + 1 + n;
    if n == 0 || m >= |s| || s[m] != '/' then None
    else
      var k := NameRun(s, m + 1);
      match LastRepoEnd(s, m + 1, m + 1 + k)
      case None => None
      case Some(e) => Some((m, e))
  }

  /** The greedy `.+` before the colon backtracks from `c` down to `lo`: the last colon the rest matches after. */
  function LastColon(s: string, lo: nat, c: int): (r: Option<nat>)
    requires c < |s|
    ensures r.Some? ==> lo <= r.value <= c && ColonAt(s, r.value)
    ensures forall k :: lo <= k <= c && ColonAt(s, k) ==> r.Some? && k <= r.value
    decreases c - lo + 1
  {
    if c < lo then None
    else if ColonAt(s, c) then Some(c)
    else LastColon(s, lo, c - 1)
  }

  /** A colon at `k` that the rest of the expression matches after. */
  predicate ColonAt(s: string, k: nat) {
    k < |s| && s[k] == ':' && TailAt(s, k).Some?
  }

  /** The positions of one regular-expression match. */
  datatype ScpMatch = ScpMatch(g: nat, c: nat, m: nat, e: nat)

  /** The match that starts at `g`, if any: the furthest colon, then the longest repository name. */
  function MatchAt(s: string, g: nat): (r: Option<ScpMatch>)
    requires g <= |s|
    ensures r.Some? ==> r.value.g == g && ScpAt(s, g, r.value.c, r.value.m, r.value.e)
    ensures forall c, m, e :: ScpAt(s, g, c, m, e) ==> r.Some? && c <= r.value.c
    ensures r.Some? ==> forall m, e :: ScpTail(s, r.value.c, m, e) ==> m == r.value.m && e <= r.value.e
  {
    if !OccursAt(s, "git@", g) then None
    else
      var hi := g + 4 + LineRun(s, g + 4);
      assert forall c, m, e :: ScpAt(s, g, c, m, e) ==> c <= hi - 1 && ColonAt(s, c);
      match LastColon(s, g + 5, hi - 1)
      case None => None
      case Some(c) =>
        var t := TailAt(s, c).value;
        assert forall m, e :: ScpTail(s, c, m, e) ==> m == t.0 && e <= t.1;
        Some(ScpMatch(g, c, t.0, t.1))
  }

  /** The leftmost match at or after `g`. */
  function FirstMatch(s: string, g: nat): (r: Option<ScpMatch>)
    requires g <= |s|
    ensures r.Some? ==> g <= r.value.g && ScpAt(s, r.value.g, r.value.c, r.value.m, r.value.e)
    ensures forall g', c, m, e :: g <= g' && ScpAt(s, g', c, m, e) ==> r.Some? && r.value.g <= g'
    ensures r.Some? ==> MatchAt(s, r.value.g) == r
    decreases |s| - g
  {
    match MatchAt(s, g)
    case Some(x) => Some(x)
    case None => if g == |s| then None else FirstMatch(s, g + 1)
  }

  /** The user and repository captures of one match. */
  function CaptureOf(s: string, x: ScpMatch): (string, string)
    requires x.c < x.m < x.e <= |s|
  {
    (s[x.c + 1..x.m], s[x.m + 1..x.e])
  }

  /**
    `url.match(regex)?.groups`: the user and repository captures of the
    leftmost match, or `None` when the expression matches nowhere.
  */
  function ScpCapture(s: string): Option<(string, string)> {
    match FirstMatch(s, 0)
    case None => None
    case Some(x) => Some(CaptureOf(s, x))
  }

  /**
    The captures exist exactly when the expression matches, and then they are
    those of the match the regular expression engine reports: the leftmost
    one, with the greedy `.+` reaching the last colon the rest can follow and
    the greedy repository name the longest that `.git` can follow.
  */
  lemma ScpCaptureSpec(s: string)
    ensures ScpCapture(s).Some? <==> exists g, c, m, e :: ScpAt(s, g, c, m, e)
    ensures ScpCapture(s).Some? ==>
      exists g, c, m, e :: && ScpAt(s, g, c, m, e)
                           && ScpCapture(s).value == CaptureOf(s, ScpMatch(g, c, m, e))
                           && (forall g', c', m', e' :: ScpAt(s, g', c', m', e') ==> g <= g' && (g' == g ==> c' <= c))
                           && (forall m', e' :: ScpTail(s, c, m', e') ==> m' == m && e' <= e)
  {
    match FirstMatch(s, 0)
    case None =>
    case Some(x) =>
      assert MatchAt(s, x.g) == Some(x);
      assert ScpAt(s, x.g, x.c, x.m, x.e);
      assert ScpCapture(s).value == CaptureOf(s, ScpMatch(x.g, x.c, x.m, x.e));
  }

  /**
    The provider name put into an `https` URL: the given one when it is not
    `null`/`undefined`, otherwise the guessed one; `""` stands for none.
  */
  function HostName(url: string, provider: Option<string>): string {
    match provider
    case Some(p) => p
    case None => match GuessProvider(url) case Some(q) => ProviderName(q) case None => ""
  }

  /** The two captures, or `undefined` for both when the expression does not match. */
  function ScpNames(url: string): (string, string) {
    match ScpCapture(url)
    case Some(x) => x
    case None => ("undefined", "undefined")
  }

  /**
    `toRepoUrl(url, provider)`: `http` URLs lose one trailing `.git`; `git@`
    URLs become `https://{provider}.com/{user}/{repo}`; anything else is `null`.
  */
  function ToRepoUrl(url: string, provider: Option<string>): (r: Option<string>)
    ensures StartsWith(url, "http") ==> r.Some? && (r.value == url || r.value + ".git" == url)
    ensures StartsWith(url, "http") && !EndsWith(url, ".git") ==> r == Some(url)
    ensures StartsWith(url, "http") && EndsWith(url, ".git") ==> r == Some(url[..|url| - 4])
    ensures !StartsWith(url, "http") && !StartsWith(url, "git@") ==> r.None?
    ensures StartsWith(url, "git@") ==> (r.Some? <==> HostName(url, provider) != "")
    ensures StartsWith(url, "git@") && r.Some? ==> StartsWith(r.value, "https://" + HostName(url, provider) + ".com/")
    ensures StartsWith(url, "git@") && r.Some? ==>
      r.value == "https://" + HostName(url, provider) + ".com/" + ScpNames(url).0 + "/" + ScpNames(url).1
  {
    if StartsWith(url, "http") then
      assert !StartsWith(url, "git@") by { assert url[0] == 'h'; }
      if EndsWith(url, ".git") then
        assert url[..|url| - 4] + ".git" == url;
        Some(url[..|url| - 4])
      else Some(url)
    else if StartsWith(url, "git@") then HttpsUrl(HostName(url, provider), ScpNames(url))
    else None
  }

  /** The `https` URL for a host name and the two captures; none when there is no host name. */
  function HttpsUrl(name: string, names: (string, string)): (r: Option<string>)
    ensures r.Some? <==> name != ""
    ensures r.Some? ==> StartsWith(r.value, "https://" + name + ".com/")
    ensures r.Some? ==> r.value == "https://" + name + ".com/" + names.0 + "/" + names.1
  {
    if name == "" then None
    else
      var head := "https://" + name + ".com/";
      var u := head + names.0 + "/" + names.1;
      assert u[..|head|] == head;
      Some(u)
  }

  /** With no colon after the one at `c0`, the match at 0 takes that colon. */
  lemma StandardColon(s: string, c0: int, m0: int, e0: int)
    requires ScpAt(s, 0, c0, m0, e0)
    requires forall k :: c0 < k < |s| ==> s[k] != ':'
    ensures MatchAt(s, 0).Some? && MatchAt(s, 0).value.c == c0
  {
    var r := MatchAt(s, 0);
    assert r.Some? && c0 <= r.value.c;
    assert s[r.value.c] == ':';
  }

  /** When the usual remote form sits at 0, the match there has its colon and both names. */
  lemma StandardMatch(s: string, c0: int, m0: int, e0: int)
    requires ScpAt(s, 0, c0, m0, e0)
    requires forall k :: c0 < k < |s| ==> s[k] != ':'
    requires !IsNameChar(s[e0])
    ensures MatchAt(s, 0) == Some(ScpMatch(0, c0, m0, e0))
  {
    StandardColon(s, c0, m0, e0);
    var r := MatchAt(s, 0).value;
    assert ScpTail(s, c0, r.m, r.e);
    assert m0 == r.m && e0 <= r.e;
    UniqueTail(s, c0, m0, e0, r.m, r.e);
  }

  /** A match at 0 is the leftmost one. */
  lemma MatchAtStart(s: string)
    requires MatchAt(s, 0).Some?
    ensures FirstMatch(s, 0) == MatchAt(s, 0)
  {
  }

  /** The names of a string whose leftmost match is known are that match's captures. */
  lemma NamesOfFirst(s: string, x: ScpMatch)
    requires x.c < x.m < x.e <= |s|
    requires FirstMatch(s, 0) == Some(x)
    ensures ScpNames(s) == CaptureOf(s, x)
  {
  }

  /** In the usual remote form the names are the captures of the match at 0. */
  lemma StandardCaptured(s: string, c0: int, m0: int, e0: int)
    requires ScpAt(s, 0, c0, m0, e0)
    requires forall k :: c0 < k < |s| ==> s[k] != ':'
    requires !IsNameChar(s[e0])
    ensures ScpNames(s) == CaptureOf(s, ScpMatch(0, c0, m0, e0))
  {
    StandardMatch(s, c0, m0, e0);
    MatchAtStart(s);
    NamesOfFirst(s, ScpMatch(0, c0, m0, e0));
  }

  /** After a given colon, the user capture is forced, and a longer repository capture would have to cross the `.`. */
  lemma UniqueTail(s: string, c: int, m0: int, e0: int, m: int, e: int)
    requires ScpTail(s, c, m0, e0) && ScpTail(s, c, m, e)
    requires !IsNameChar(s[e0])
    ensures m == m0 && e <= e0
  {
  }

  /** Where the pieces of `git@{host}:{user}/{repo}.git` sit. */
  lemma StandardLayout(host: string, user: string, repo: string)
    requires host != "" && forall k :: 0 <= k < |host| ==> host[k] != ':' && !IsLineTerminator(host[k])
    requires user != "" && forall k :: 0 <= k < |user| ==> IsNameChar(user[k])
    requires repo != "" && forall k :: 0 <= k < |repo| ==> IsNameChar(repo[k])
    ensures var s := "git@" + host + ":" + user + "/" + repo + ".git";
      var c0, m0, e0 := 4 + |host|, 5 + |host| + |user|, 6 + |host| + |user| + |repo|;
      && e0 + 4 == |s| && s[..4] == "git@"
      && (forall k :: 4 <= k < c0 ==> !IsLineTerminator(s[k]) && s[k] != ':')
      && s[c0] == ':' && s[m0] == '/' && s[e0..] == ".git"
      && (forall k :: c0 < k < m0 ==> IsNameChar(s[k]))
      && (forall k :: m0 < k < e0 ==> IsNameChar(s[k]))
      && s[c0 + 1..m0] == user && s[m0 + 1..e0] == repo
  {
    var p1 := "git@" + host;
    var p2 := p1 + ":" + user;
    var p3 := p2 + "/" + repo;
    var s := p3 + ".git";
    var c0 := |p1|;
    var m0 := |p2|;
    var e0 := |p3|;
    assert s[..4] == "git@" by { assert s[..4] == p3[..4] == p2[..4] == p1[..4]; }
    forall k | 4 <= k < c0 ensures !IsLineTerminator(s[k]) && s[k] != ':' {
      assert s[k] == p3[k] == p2[k] == p1[k] == host[k - 4];
    }
    assert s[c0] == ':' by { assert s[c0] == p3[c0] == p2[c0]; }
    forall k | c0 < k < m0 ensures IsNameChar(s[k]) {
      assert s[k] == p3[k] == p2[k] == user[k - c0 - 1];
    }
    assert s[m0] == '/' by { assert s[m0] == p3[m0]; }
    forall k | m0 < k < e0 ensures IsNameChar(s[k]) {
      assert s[k] == p3[k] == repo[k - m0 - 1];
    }
    assert s[e0..] == ".git";
    assert s[c0 + 1..m0] == user by { assert s[c0 + 1..m0] == p3[c0 + 1..m0] == p2[c0 + 1..]; }
    assert s[m0 + 1..e0] == repo by { assert s[m0 + 1..e0] == p3[m0 + 1..]; }
    assert s == "git@" + host + ":" + user + "/" + repo + ".git";
  }

  /** The usual remote form is a match, with no colon after its colon and a `.` after the repository name. */
  lemma StandardAt(host: string, user: string, repo: string)
    requires host != "" && forall k :: 0 <= k < |host| ==> host[k] != ':' && !IsLineTerminator(host[k])
    requires user != "" && forall k :: 0 <= k < |user| ==> IsNameChar(user[k])
    requires repo != "" && forall k :: 0 <= k < |repo| ==> IsNameChar(repo[k])
    ensures var s := "git@" + host + ":" + user + "/" + repo + ".git";
      var c0, m0, e0 := 4 + |host|, 5 + |host| + |user|, 6 + |host| + |user| + |repo|;
      && ScpAt(s, 0, c0, m0, e0)
      && (forall k :: c0 < k < |s| ==> s[k] != ':')
      && !IsNameChar(s[e0])
  {
    var s := "git@" + host + ":" + user + "/" + repo + ".git";
    var c0, m0, e0 := 4 + |host|, 5 + |host| + |user|, 6 + |host| + |user| + |repo|;
    StandardLayout(host, user, repo);
    assert s[e0 + 1..e0 + 4] == s[e0..][1..];
    forall k | c0 < k < |s| ensures s[k] != ':' {
      if k >= e0 { assert s[k] == s[e0..][k - e0]; }
    }
    assert s[e0] == s[e0..][0];
  }

  /** The captures of that match are the two names. */
  lemma StandardCaptures(host: string, user: string, repo: string)
    requires host != "" && forall k :: 0 <= k < |host| ==> host[k] != ':' && !IsLineTerminator(host[k])
    requires user != "" && forall k :: 0 <= k < |user| ==> IsNameChar(user[k])
    requires repo != "" && forall k :: 0 <= k < |repo| ==> IsNameChar(repo[k])
    ensures var s := "git@" + host + ":" + user + "/" + repo + ".git";
      && 6 + |host| + |user| + |repo| <= |s|
      && CaptureOf(s, ScpMatch(0, 4 + |host|, 5 + |host| + |user|, 6 + |host| + |user| + |repo|)) == (user, repo)
  {
    StandardLayout(host, user, repo);
  }

  /** The captures of `git@{host}:{user}/{repo}.git` are exactly `user` and `repo`. */
  lemma StandardNames(host: string, user: string, repo: string)
    requires host != "" && forall k :: 0 <= k < |host| ==> host[k] != ':' && !IsLineTerminator(host[k])
    requires user != "" && forall k :: 0 <= k < |user| ==> IsNameChar(user[k])
    requires repo != "" && forall k :: 0 <= k < |repo| ==> IsNameChar(repo[k])
    ensures ScpNames("git@" + host + ":" + user + "/" + repo + ".git") == (user, repo)
  {
    var s := "git@" + host + ":" + user + "/" + repo + ".git";
    var x := ScpMatch(0, 4 + |host|, 5 + |host| + |user|, 6 + |host| + |user| + |repo|);
    StandardAt(host, user, repo);
    StandardCaptured(s, x.c, x.m, x.e);
    StandardCaptures(host, user, repo);
  }

  /**
    The usual remote form `git@{host}:{user}/{repo}.git` becomes
    `https://{provider}.com/{user}/{repo}` with exactly those two names,
    for the given provider when there is one and the guessed one otherwise.
  */
  lemma ScpRemoteUrl(host: string, user: string, repo: string, provider: Option<string>)
    requires host != "" && forall k :: 0 <= k < |host| ==> host[k] != ':' && !IsLineTerminator(host[k])
    requires user != "" && forall k :: 0 <= k < |user| ==> IsNameChar(user[k])
    requires repo != "" && forall k :: 0 <= k < |repo| ==> IsNameChar(repo[k])
    requires HostName("git@" + host + ":" + user + "/" + repo + ".git", provider) != ""
    ensures var url := "git@" + host + ":" + user + "/" + repo + ".git";
      ToRepoUrl(url, provider) == Some("https://" + HostName(url, provider) + ".com/" + user + "/" + repo)
  {
    var url := "git@" + host + ":" + user + "/" + repo + ".git";
    StandardNames(host, user, repo);
    assert url[..4] == "git@";
    assert !StartsWith(url, "http") by { assert url[0] == 'g'; }
    assert ToRepoUrl(url, provider) == HttpsUrl(HostName(url, provider), ScpNames(url));
  }
}
