/** The GitHub credential pair kept in `localStorage` under `github_token`
    and `github_repo` (`getGitHubConfig`, script.js:157-162). */
module Config {

  const TokenKey := "github_token"
  const RepoKey := "github_repo"
  const ComponentsKey := "components"

  datatype GitHubConfig = GitHubConfig(token: string, repo: string)

  /** `localStorage.getItem(key) || ''`: a missing entry reads as the empty
      string. */
  function Lookup(entries: map<string, string>, key: string): string
  {
    if key in entries then entries[key] else ""
  }

  /** `getGitHubConfig()`. */
  function GetGitHubConfig(entries: map<string, string>): GitHubConfig
  {
    GitHubConfig(Lookup(entries, TokenKey), Lookup(entries, RepoKey))
  }

  /** The test `config.token && config.repo` that `loadFromGitHub`,
      `saveToGitHub` and `syncData` make before any request (script.js:80,
      107, 200); `updateConfigStatus` uses it for its display (script.js:449). */
  predicate IsConfigured(c: GitHubConfig) {
    c.token != "" && c.repo != ""
  }

  /** Sync is configured exactly when both entries are present and
      non-empty; one entry alone is not enough. */
  lemma ConfiguredIff(entries: map<string, string>)
    ensures IsConfigured(GetGitHubConfig(entries)) <==>
              TokenKey in entries && entries[TokenKey] != ""
              && RepoKey in entries && entries[RepoKey] != ""
  {
  }

  /** The credentials depend on the two credential entries only: writing any
      other entry, such as the saved collection, leaves them as they were. */
  lemma ConfigIgnoresOtherKeys(entries: map<string, string>, key: string, v: string)
    requires key != TokenKey && key != RepoKey
    ensures GetGitHubConfig(entries[key := v]) == GetGitHubConfig(entries)
  {
  }

  /** The configuration follows the storage operations on the two entries:
      after both are removed it is the empty pair, and after both are set it
      is exactly the pair written, whatever was stored before. */
  lemma ConfigReadsWrites(entries: map<string, string>, token: string, repo: string)
    ensures GetGitHubConfig(entries - {TokenKey, RepoKey}) == GitHubConfig("", "")
    ensures !IsConfigured(GetGitHubConfig(entries - {TokenKey, RepoKey}))
    ensures GetGitHubConfig(entries[TokenKey := token][RepoKey := repo]) == GitHubConfig(token, repo)
  {
  }

  const ApiPrefix := "https://api.github.com/repos/"
  const DocumentSuffix := "/contents/data.json"

  /** The address of the one remote document, `data.json` in the repository
      (script.js:86, 114, 139). */
  function ContentsUrl(repo: string): string
  {
    ApiPrefix + repo + DocumentSuffix
  }

  /** Different repositories are addressed differently. */
  lemma ContentsUrlInjective(a: string, b: string)
    requires ContentsUrl(a) == ContentsUrl(b)
    ensures a == b
  {
    var u := ContentsUrl(a);
    assert |a| == |b|;
    assert a == u[|ApiPrefix|..|ApiPrefix| + |a|];
    assert b == ContentsUrl(b)[|ApiPrefix|..|ApiPrefix| + |b|];
  }
}
