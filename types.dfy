/**
  The shapes the pipeline passes around: the hosting provider tag, the
  configuration (file defaults merged with command-line flags) and one
  normalised git-log record.
*/
module Types {
  import opened Base

  /** The git-hosting flavour that selects URL templates and pull-request detection. */
  datatype Provider = Git | GitHub | Bitbucket | GitLab

  /** The provider's name as it is written in configuration and URLs. */
  function ProviderName(p: Provider): string {
    match p
    case Git => "git"
    case GitHub => "github"
    case Bitbucket => "bitbucket"
    case GitLab => "gitlab"
  }

  /** The configuration read from a config file and merged over the defaults. */
  datatype Config = Config(
    provider: Option<Provider>,
    header: string,
    fileName: string,
    versionPrefix: string,
    versionBumpType: string,
    startVersion: string,
    pullRequestOnly: bool)

  /**
    The configuration of one run: the configuration above with the command-line
    flags spread over it. A flag that was not given is `false` or `None`.
  */
  datatype RuntimeConfig = RuntimeConfig(
    config: Config,
    major: bool,
    minor: bool,
    patch: bool,
    fromCommit: Option<string>,
    toCommit: Option<string>)

  /**
    One git-log record after normalisation. `isPullRequest` and `commits` are
    optional keys: `None` stands for an absent key (or, for `commits`, `null`).
  */
  datatype GitLog = GitLog(
    hash: string,
    authorName: string,
    authorEmail: string,
    date: string,
    message: string,
    body: string,
    refs: seq<string>,
    parentHashes: seq<string>,
    branch: Option<string>,
    isPullRequest: Option<bool>,
    commits: Option<seq<string>>)
}
