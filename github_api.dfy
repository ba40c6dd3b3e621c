/**
 * `GitHubAPIClient.parse_repo_url`: a repository URL to `(owner, repo)`.
 * The rewrites are applied once each, in this order, to the stripped text:
 * drop an `http://` or `https://` scheme, drop a leading `github.com/`,
 * drop a trailing `.git`; the first two `/`-separated segments are the
 * answer. The HTTP client around it is not modelled.
 */
module GitHubApi {

  import opened Wrappers
  import opened Text

  /** `url.split('://', 1)[1]` once the text is known to start with a scheme. */
  function DropScheme(url: string): string
  {
    if StartsWith(url, "http://") then url[7..]
    else if StartsWith(url, "https://") then url[8..]
    else url
  }

  /** `url[11:]` after a leading `github.com/`. */
  function DropHost(url: string): string
  {
    if StartsWith(url, "github.com/") then url[11..] else url
  }

  /** `url[:-4]` after a trailing `.git`. */
  function DropGit(url: string): string
  {
    if EndsWith(url, ".git") then url[..|url| - 4] else url
  }

  /** The text the segments are taken from. */
  function RepoPath(repoUrl: string): string
  {
    DropGit(DropHost(DropScheme(Strip(repoUrl))))
  }

  /** `owner` and `repo` are the first two `/`-separated segments of `path`. */
  predicate LeadingSegments(path: string, owner: string, repo: string)
  {
    var n := |owner| + 1 + |repo|;
    '/' !in owner && '/' !in repo && n <= |path|
    && path[..|owner|] == owner && path[|owner|] == '/' && path[|owner| + 1..n] == repo
    && (n == |path| || path[n] == '/')
  }

  /**
   * `parse_repo_url`: `None` exactly when the path has no `/`; otherwise its
   * first two segments, which may be empty. The source's exception handler
   * is unreachable: every step is total on every string.
   */
  function ParseRepoUrl(repoUrl: string): (r: Option<(string, string)>)
    ensures r.None? <==> '/' !in RepoPath(repoUrl)
    ensures r.Some? ==> LeadingSegments(RepoPath(repoUrl), r.value.0, r.value.1)
  {
    Segments(RepoPath(repoUrl))
  }

  /** `parts = path.split('/')` and its first two elements when there are two. */
  function Segments(path: string): (r: Option<(string, string)>)
    ensures r.None? <==> '/' !in path
    ensures r.Some? ==> LeadingSegments(path, r.value.0, r.value.1)
  {
    var parts := Split(path, '/');
    SplitCount(path, '/');
    if |parts| >= 2 then
      JoinLeading(path);
      Some((parts[0], parts[1]))
    else None
  }

  lemma JoinLeading(path: string)
    requires |Split(path, '/')| >= 2
    ensures LeadingSegments(path, Split(path, '/')[0], Split(path, '/')[1])
  {
    var parts := Split(path, '/');
    SplitJoin(path, '/');
    SplitPartsFree(path, '/');
    assert parts[1..][0] == parts[1];
    var tail := Join(parts[1..], '/');
    assert path == parts[0] + ['/'] + tail;
    if |parts| == 2 {
      assert tail == parts[1];
    } else {
      assert tail == parts[1] + ['/'] + Join(parts[2..], '/');
    }
    var n := |parts[0]| + 1 + |parts[1]|;
    assert path[|parts[0]| + 1..n] == tail[..|parts[1]|];
  }

  /** Conversely, any two leading segments of the path are the answer. */
  lemma ParseRepoUrlLeading(repoUrl: string, owner: string, repo: string)
    requires LeadingSegments(RepoPath(repoUrl), owner, repo)
    ensures ParseRepoUrl(repoUrl) == Some((owner, repo))
  {
    SegmentsLeading(RepoPath(repoUrl), owner, repo);
  }

  lemma SegmentsLeading(path: string, owner: string, repo: string)
    requires LeadingSegments(path, owner, repo)
    ensures Segments(path) == Some((owner, repo))
  {
    var n := |owner| + 1 + |repo|;
    var rest := path[|owner| + 1..];
    assert path == owner + ['/'] + rest;
    SplitAt(owner, rest, '/');
    if n == |path| {
      assert rest == repo;
      SplitFree(repo, '/');
    } else {
      assert rest == repo + ['/'] + path[n + 1..];
      SplitAt(repo, path[n + 1..], '/');
    }
  }

  /** The scheme rewrite is the source's `split('://', 1)[1]`. */
  lemma DropSchemeIsSplit(url: string)
    requires StartsWith(url, "http://") || StartsWith(url, "https://")
    ensures Find(url, "://").Some? && DropScheme(url) == url[Find(url, "://").value + 3..]
  {
    var k := if StartsWith(url, "http://") then 4 else 5;
    assert url[..4] == "http" && url[k..k + 3] == "://";
    assert url[k..][..3] == "://";
    assert Find(url[k..], "://") == Some(0);
    NoSeparatorBefore(url, k);
  }

  /** A prefix of `http` holds no `:`, so `://` is not found before index `k`. */
  lemma {:induction false} NoSeparatorBefore(url: string, k: nat)
    requires (k == 4 || k == 5) && k <= |url| && url[..4] == "http" && Find(url[k..], "://") == Some(0)
    requires k == 5 ==> url[4] == 's'
    ensures Find(url, "://") == Some(k)
  {
    var i := k;
    while i > 0
      invariant 0 <= i <= k && Find(url[i..], "://") == Some(k - i)
    {
      var t := url[i - 1..];
      assert t[1..] == url[i..] && t[0] == url[i - 1];
      assert t[0] != ':' by {
        if i - 1 < 4 {
          assert url[..4][i - 1] == url[i - 1] && "http"[i - 1] != ':';
        }
      }
      assert !StartsWith(t, "://") by { if |t| >= 3 { assert t[..3][0] == t[0]; } }
      i := i - 1;
    }
    assert url[0..] == url;
  }

  /** Text without surrounding white space is its own `strip()`. */
  lemma StripKeeps(s: string)
    requires s != [] && !IsSpace(s[0]) && !IsSpace(s[|s| - 1])
    ensures Strip(s) == s
  {
  }

  /**
   * The URL shapes the source names: an optional scheme, `github.com/`, the
   * path and an optional `.git`; the rewrites leave exactly the path.
   */
  lemma GithubUrlPath(url: string, scheme: string, path: string, suffix: string)
    requires scheme == "" || scheme == "http://" || scheme == "https://"
    requires suffix == "" || suffix == ".git"
    requires path != [] && !IsSpace(path[|path| - 1])
    requires suffix == "" ==> !EndsWith(path, ".git")
    requires url == scheme + "github.com/" + path + suffix
    ensures RepoPath(url) == path
  {
    var rest := "github.com/" + (path + suffix);
    assert url == scheme + rest;
    assert url[|url| - 1] == if suffix == "" then path[|path| - 1] else 't';
    assert url[0] == if scheme == "" then 'g' else 'h';
    StripKeeps(url);
    assert Strip(url) == url;
    DropSchemeOf(scheme, rest);
    assert DropScheme(url) == rest;
    DropHostOf(path + suffix);
    DropGitOf(path, suffix);
  }

  lemma DropSchemeOf(scheme: string, rest: string)
    requires scheme == "" || scheme == "http://" || scheme == "https://"
    requires rest != [] && rest[0] == 'g'
    ensures DropScheme(scheme + rest) == rest
  {
    var url := scheme + rest;
    if scheme == "" {
      assert url == rest;
      assert !StartsWith(url, "http://") && !StartsWith(url, "https://") by {
        if |url| >= 7 { assert url[..7][0] == 'g'; }
      }
    } else if scheme == "http://" {
      assert url[..7] == scheme;
      assert url[7..] == rest;
    } else {
      assert !StartsWith(url, "http://") by { assert url[..7][4] == 's'; }
      assert url[..8] == scheme;
      assert url[8..] == rest;
    }
  }

  lemma DropHostOf(p: string)
    ensures DropHost("github.com/" + p) == p
  {
    var u := "github.com/" + p;
    assert u[..11] == "github.com/" && u[11..] == p;
  }

  lemma DropGitOf(path: string, suffix: string)
    requires suffix == "" || suffix == ".git"
    requires suffix == "" ==> !EndsWith(path, ".git")
    ensures DropGit(path + suffix) == path
  {
    var p := path + suffix;
    if suffix == "" {
      assert p == path;
    } else {
      assert p[|p| - 4..] == ".git" && p[..|p| - 4] == path;
    }
  }

  /** `scheme` + `github.com/owner/repo` + `suffix` names the repository `(owner, repo)`. */
  lemma GithubUrlSegments(url: string, scheme: string, owner: string, repo: string, suffix: string)
    requires scheme == "" || scheme == "http://" || scheme == "https://"
    requires suffix == "" || suffix == ".git"
    requires '/' !in owner && '/' !in repo && repo != [] && !IsSpace(repo[|repo| - 1])
    requires suffix == "" ==> !EndsWith(repo, ".git")
    requires url == scheme + "github.com/" + owner + "/" + repo + suffix
    ensures ParseRepoUrl(url) == Some((owner, repo))
  {
    var path := owner + "/" + repo;
    assert url == scheme + "github.com/" + path + suffix;
    assert path[|path| - 1] == repo[|repo| - 1];
    if suffix == "" {
      SegmentsNotGit(owner, repo);
    }
    GithubUrlPath(url, scheme, path, suffix);
    LeadingOf(owner, repo);
    ParseRepoUrlLeading(url, owner, repo);
  }

  lemma LeadingOf(owner: string, repo: string)
    requires '/' !in owner && '/' !in repo
    ensures LeadingSegments(owner + "/" + repo, owner, repo)
  {
  }

  lemma SegmentsNotGit(owner: string, repo: string)
    requires !EndsWith(repo, ".git")
    ensures !EndsWith(owner + "/" + repo, ".git")
  {
    var path := owner + "/" + repo;
    if |path| >= 4 {
      if |repo| >= 4 {
        assert path[|path| - 4..] == repo[|repo| - 4..];
      } else {
        assert path[|path| - 4..][3 - |repo|] == '/';
      }
    }
  }

  // ---------------------------------------------------------------------------
  // The sample URLs
  // ---------------------------------------------------------------------------

  lemma MariaDbExample(url: string)
    requires url == "https://github.com/MariaDB/server"
    ensures ParseRepoUrl(url) == Some(("MariaDB", "server"))
  {
    MariaDbParts(url);
    GithubUrlSegments(url, "https://", "MariaDB", "server", "");
  }

  lemma MariaDbParts(url: string)
    requires url == "https://github.com/MariaDB/server"
    ensures url == "https://" + "github.com/" + "MariaDB" + "/" + "server" + ""
    ensures !EndsWith("server", ".git") && !IsSpace("server"[5]) && '/' !in "MariaDB" && '/' !in "server"
  {
    assert "server"[2..] == "rver";
  }

  lemma LinuxExample(url: string)
    requires url == "github.com/torvalds/linux"
    ensures ParseRepoUrl(url) == Some(("torvalds", "linux"))
  {
    assert "linux"[1..] == "inux";
    GithubUrlSegments(url, "", "torvalds", "linux", "");
  }

  lemma NodeExample(url: string)
    requires url == "https://github.com/nodejs/node.git"
    ensures ParseRepoUrl(url) == Some(("nodejs", "node"))
  {
    NodeParts(url);
    GithubUrlSegments(url, "https://", "nodejs", "node", ".git");
  }

  lemma NodeParts(url: string)
    requires url == "https://github.com/nodejs/node.git"
    ensures url == "https://" + "github.com/" + "nodejs" + "/" + "node" + ".git"
    ensures !IsSpace("node"[3]) && '/' !in "nodejs" && '/' !in "node"
  {
  }

  /** Segments are not checked: an empty owner comes back as it is. */
  lemma EmptyOwnerExample(url: string)
    requires url == "github.com//x"
    ensures ParseRepoUrl(url) == Some(("", "x"))
  {
    GithubUrlSegments(url, "", "", "x", "");
  }

  /** A bare owner has one segment and gives `None`. */
  lemma OwnerOnlyExample(url: string)
    requires url == "https://github.com/torvalds"
    ensures ParseRepoUrl(url) == None
  {
    OwnerOnlyParts(url);
    GithubUrlPath(url, "https://", "torvalds", "");
  }

  lemma OwnerOnlyParts(url: string)
    requires url == "https://github.com/torvalds"
    ensures url == "https://" + "github.com/" + "torvalds" + ""
    ensures !EndsWith("torvalds", ".git") && !IsSpace("torvalds"[7]) && '/' !in "torvalds"
  {
    assert "torvalds"[4..] == "alds";
  }
}
