/**
 * internal/repo/repo.go: the repository URL check, where a repository is kept on
 * disk, and the choice between cloning and pulling. The file system and git are
 * outside the model; whether `<localPath>/.git` exists is a parameter, and the cache
 * directory is passed in.
 */
module Repo {
  import opened Wrappers
  import opened Text

  const Host := "github.com/"

  /** A character of the pattern's class `[\w.\-]`: ASCII letters, digits, '_', '.', '-'. */
  predicate IsNameChar(c: char) {
    'a' <= c <= 'z' || 'A' <= c <= 'Z' || '0' <= c <= '9' || c == '_' || c == '.' || c == '-'
  }

  /** One or more name characters: an owner or a repository name. */
  predicate IsName(s: string) {
    s != [] && forall i | 0 <= i < |s| :: IsNameChar(s[i])
  }

  /** The whole text matches `^github\.com/[\w.\-]+/[\w.\-]+$`. */
  predicate MatchesRepoPattern(url: string) {
    && HasPrefix(url, Host)
    && var parts := Split(url[|Host|..], '/');
       |parts| == 2 && IsName(parts[0]) && IsName(parts[1])
  }

  /** ValidateURL; None stands for a nil error. */
  function ValidateURL(url: string): (r: Option<string>)
    ensures r.None? <==> MatchesRepoPattern(url)
  {
    if MatchesRepoPattern(url) then None
    else Some("invalid repository URL \"" + url + "\": expected format github.com/owner/repo")
  }

  /** Every owner and name made of name characters is accepted. */
  lemma ValidateAccepts(owner: string, name: string)
    requires IsName(owner) && IsName(name)
    ensures ValidateURL(Host + owner + "/" + name).None?
  {
    var url := Host + owner + "/" + name;
    assert url[|Host|..] == owner + ['/'] + name;
    SplitConcat(owner, '/', name);
    SplitWithoutSep(owner, '/');
    SplitWithoutSep(name, '/');
  }

  /** An accepted URL is the host, an owner, a slash and a name, and nothing else. */
  lemma ValidateShape(url: string)
    requires ValidateURL(url).None?
    ensures var parts := Split(url[|Host|..], '/');
      |parts| == 2 && IsName(parts[0]) && IsName(parts[1]) && url == Host + parts[0] + "/" + parts[1]
  {
    var rest := url[|Host|..];
    var parts := Split(rest, '/');
    JoinSplit(rest, '/');
    assert Join(parts, "/") == parts[0] + "/" + parts[1] by {
      assert parts[1..] == [parts[1]];
    }
    assert url == Host + rest;
  }

  /** A scheme in front is rejected. */
  lemma RejectsScheme(url: string)
    ensures ValidateURL("https://" + url).Some?
  {
    var u := "https://" + url;
    assert u[0] == 'h';
  }

  /** Anything after the name, even a lone trailing slash, is rejected. */
  lemma RejectsExtraSegment(owner: string, name: string, more: string)
    requires IsName(owner) && IsName(name)
    ensures ValidateURL(Host + owner + "/" + name + "/" + more).Some?
  {
    var url := Host + owner + "/" + name + "/" + more;
    assert url[|Host|..] == owner + ['/'] + (name + ['/'] + more);
    SplitConcat(owner, '/', name + ['/'] + more);
    SplitConcat(name, '/', more);
  }

  /** An empty owner or an empty name is rejected. */
  lemma RejectsEmptySegment(s: string)
    ensures ValidateURL(Host + "/" + s).Some?
    ensures ValidateURL(Host + s + "/").Some?
  {
    var u := Host + "/" + s;
    assert u[|Host|..] == [] + ['/'] + s;
    SplitConcat([], '/', s);
    var v := Host + s + "/";
    assert v[|Host|..] == s + ['/'] + [];
    SplitConcat(s, '/', []);
  }

  /** "." and ".." are names too, so the pattern lets them through. */
  lemma AcceptsDotNames()
    ensures ValidateURL(Host + "../..").None?
    ensures ValidateURL(Host + "./.").None?
  {
    ValidateAccepts("..", "..");
    ValidateAccepts(".", ".");
    assert Host + "../.." == Host + ".." + "/" + "..";
    assert Host + "./." == Host + "." + "/" + ".";
  }

  // ---------------------------------------------------------------------------
  // Paths

  /** A path element that cleaning keeps as it is. */
  predicate Plain(seg: string) {
    seg != "" && seg != "." && seg != ".." && '/' !in seg
  }

  /**
   * The elements that remain of `segs` once filepath.Clean has dropped empty and "."
   * elements and let each ".." remove the element before it; at the root a ".." has
   * nothing to remove, elsewhere a leading ".." is kept.
   */
  function Resolve(segs: seq<string>, rooted: bool): seq<string> {
    if segs == [] then []
    else
      var st, seg := Resolve(segs[..|segs| - 1], rooted), segs[|segs| - 1];
      if seg == "" || seg == "." then st
      else if seg == ".." then
        if st != [] && st[|st| - 1] != ".." then st[..|st| - 1]
        else if rooted then st
        else st + [".."]
      else st + [seg]
  }

  /** filepath.Clean on a path with '/' separators: never empty, and rooted when `p` is. */
  function Clean(p: string): (r: string)
    ensures r != ""
    ensures p != "" && p[0] == '/' ==> r[0] == '/'
  {
    if p == "" then "."
    else
      var rooted := p[0] == '/';
      var body := Join(Resolve(Split(p, '/'), rooted), "/");
      if rooted then "/" + body else if body == "" then "." else body
  }

  /** A clean absolute directory other than the root itself. */
  predicate CleanDir(dir: string) {
    dir != "" && dir[0] == '/' && dir != "/" && Clean(dir) == dir
  }

  function RepoTail(repoURL: string): string {
    "repos/" + repoURL
  }

  /** LocalPath: filepath.Join(cacheDir, "repos", repoURL), which cleans the result. */
  function LocalPath(cacheDir: string, repoURL: string): (r: string)
    ensures r != ""
    ensures cacheDir != "" && cacheDir[0] == '/' ==> r[0] == '/'
  {
    if cacheDir == "" then Clean(RepoTail(repoURL)) else Clean(cacheDir + "/" + RepoTail(repoURL))
  }

  /** Plain elements are kept, after whatever the earlier ones resolved to. */
  lemma {:induction false} ResolvePlain(a: seq<string>, b: seq<string>, rooted: bool)
    requires forall i | 0 <= i < |b| :: Plain(b[i])
    ensures Resolve(a + b, rooted) == Resolve(a, rooted) + b
  {
    if b == [] {
      assert a + b == a;
    } else {
      var init := b[..|b| - 1];
      assert (a + b)[..|a + b| - 1] == a + init;
      assert (a + b)[|a + b| - 1] == b[|b| - 1];
      ResolvePlain(a, init, rooted);
      assert b == init + [b[|b| - 1]];
    }
  }

  /** A ".." after an element that is not itself ".." removes that element. */
  lemma ResolveDotDot(a: seq<string>, rooted: bool)
    requires var st := Resolve(a, rooted); st != [] && st[|st| - 1] != ".."
    ensures var st := Resolve(a, rooted); Resolve(a + [".."], rooted) == st[..|st| - 1]
  {
    assert (a + [".."])[..|a|] == a;
  }

  /** The elements of a clean absolute directory, resolved. */
  lemma CleanDirElements(dir: string)
    requires CleanDir(dir)
    ensures var r := Resolve(Split(dir, '/'), true);
      r != [] && "/" + Join(r, "/") == dir
  {
  }

  /** Four elements without slashes, joined with slashes, split back into those four. */
  lemma SplitFour(a: string, b: string, c: string, d: string)
    requires '/' !in a && '/' !in b && '/' !in c && '/' !in d
    ensures Split(a + "/" + b + "/" + c + "/" + d, '/') == [a, b, c, d]
  {
    var cd := c + ['/'] + d;
    var bcd := b + ['/'] + cd;
    assert a + "/" + b + "/" + c + "/" + d == a + ['/'] + bcd;
    assert Split(cd, '/') == [c, d] by {
      SplitConcat(c, '/', d);
      SplitWithoutSep(c, '/');
      SplitWithoutSep(d, '/');
    }
    assert Split(bcd, '/') == [b, c, d] by {
      SplitConcat(b, '/', cd);
      SplitWithoutSep(b, '/');
    }
    SplitConcat(a, '/', bcd);
    SplitWithoutSep(a, '/');
  }

  lemma JoinFour(a: string, b: string, c: string, d: string)
    ensures Join([a, b, c, d], "/") == a + "/" + b + "/" + c + "/" + d
  {
    var segs := [a, b, c, d];
    assert segs[1..] == [b, c, d];
    assert [b, c, d][1..] == [c, d];
    assert [c, d][1..] == [d];
    assert Join([c, d], "/") == c + "/" + d;
    assert Join([b, c, d], "/") == b + "/" + (c + "/" + d);
    assert Join(segs, "/") == a + "/" + (b + "/" + (c + "/" + d));
  }

  /** Below a clean absolute directory, a relative path of plain elements stays as it is. */
  lemma CleanUnder(dir: string, tail: string)
    requires CleanDir(dir)
    requires var segs := Split(tail, '/'); forall i | 0 <= i < |segs| :: Plain(segs[i])
    ensures Clean(dir + "/" + tail) == dir + "/" + tail
  {
    var p := dir + "/" + tail;
    var segs := Split(tail, '/');
    var r := Resolve(Split(dir, '/'), true);
    CleanDirElements(dir);
    assert p == dir + ['/'] + tail && p[0] == '/';
    SplitConcat(dir, '/', tail);
    ResolvePlain(Split(dir, '/'), segs, true);
    assert Resolve(Split(p, '/'), true) == r + segs;
    JoinConcat(r, segs, "/");
    JoinSplit(tail, '/');
    assert Join(segs, "/") == tail;
    CleanRooted(p);
    var jr := Join(r, "/");
    assert Clean(p) == "/" + (jr + "/" + tail);
    SlashAssoc(jr, tail);
  }

  lemma SlashAssoc(a: string, b: string)
    ensures "/" + (a + "/" + b) == ("/" + a) + "/" + b
  {
  }

  /** Clean of a rooted path: a slash before the resolved elements. */
  lemma CleanRooted(p: string)
    requires p != [] && p[0] == '/'
    ensures Clean(p) == "/" + Join(Resolve(Split(p, '/'), true), "/")
  {
  }

  lemma RepoTailText(cacheDir: string, repoURL: string)
    ensures cacheDir + "/" + RepoTail(repoURL) == cacheDir + "/repos/" + repoURL
  {
  }

  lemma LiteralElements()
    ensures Plain("repos") && Plain("github.com")
    ensures Host == "github.com" + "/"
  {
    assert forall i | 0 <= i < 10 :: "github.com"[i] != '/';
  }

  /** The elements of the tail of a repository's path. */
  lemma RepoTailElements(owner: string, name: string)
    requires '/' !in owner && '/' !in name
    ensures Split(RepoTail(Host + owner + "/" + name), '/') == ["repos", "github.com", owner, name]
  {
    LiteralElements();
    assert RepoTail(Host + owner + "/" + name) == "repos" + "/" + "github.com" + "/" + owner + "/" + name;
    SplitFour("repos", "github.com", owner, name);
  }

  /**
   * For owners and names other than "." and "..", a repository is kept exactly at
   * <cacheDir>/repos/github.com/<owner>/<name>.
   */
  lemma LocalPathOfRepo(cacheDir: string, owner: string, name: string)
    requires CleanDir(cacheDir) && IsName(owner) && IsName(name)
    requires owner != "." && owner != ".." && name != "." && name != ".."
    ensures var url := Host + owner + "/" + name;
      LocalPath(cacheDir, url) == cacheDir + "/repos/" + url
  {
    var url := Host + owner + "/" + name;
    assert '/' !in owner && '/' !in name by {
      assert !IsNameChar('/');
    }
    RepoTailElements(owner, name);
    LiteralElements();
    var segs := ["repos", "github.com", owner, name];
    assert forall i | 0 <= i < 4 :: Plain(segs[i]);
    CleanUnder(cacheDir, RepoTail(url));
    RepoTailText(cacheDir, url);
  }

  /**
   * The accepted URL "github.com/../.." puts the repository at the cache directory
   * itself, outside <cacheDir>/repos.
   */
  lemma DotDotLeavesRepos(cacheDir: string)
    requires CleanDir(cacheDir)
    ensures ValidateURL(Host + "../..").None?
    ensures LocalPath(cacheDir, Host + "../..") == cacheDir
  {
    AcceptsDotNames();
    var tail := RepoTail(Host + ".." + "/" + "..");
    assert Host + "../.." == Host + ".." + "/" + "..";
    RepoTailElements("..", "..");
    var p := cacheDir + "/" + tail;
    assert p == cacheDir + ['/'] + tail;
    SplitConcat(cacheDir, '/', tail);
    DotDotResolve(Split(cacheDir, '/'));
    CleanDirElements(cacheDir);
    assert p[0] == '/';
  }

  lemma DotDotResolve(d: seq<string>)
    requires Resolve(d, true) != []
    ensures Resolve(d + ["repos", "github.com", "..", ".."], true) == Resolve(d, true)
  {
    LiteralElements();
    ResolvePlain(d, ["repos", "github.com"], true);
    ResolveDotDot(d + ["repos", "github.com"], true);
    assert d + ["repos", "github.com"] + [".."] == d + ["repos", "github.com", ".."];
    assert (Resolve(d, true) + ["repos", "github.com"])[..|Resolve(d, true)| + 1] == Resolve(d, true) + ["repos"];
    ResolveDotDot(d + ["repos", "github.com", ".."], true);
    assert d + ["repos", "github.com", "..", ".."] == d + ["repos", "github.com", ".."] + [".."];
  }

  /** The URL git clones from. */
  function CloneURL(repoURL: string): (u: string)
    ensures |u| == |repoURL| + 12
    ensures u[..8] == "https://" && u[8..|u| - 4] == repoURL && u[|u| - 4..] == ".git"
  {
    "https://" + repoURL + ".git"
  }

  /** The git step EnsureCloned runs: a pull inside the working copy, or a clone into it. */
  datatype GitStep = Pull(dir: string) | Clone(url: string, dest: string)

  function GitArgs(step: GitStep): seq<string> {
    match step
    case Pull(_) => ["pull", "--ff-only"]
    case Clone(url, dest) => ["clone", url, dest]
  }

  /**
   * EnsureCloned: the local path, and the step that brings it up to date. A working
   * copy whose .git exists is pulled, even if it was just cloned; otherwise the
   * repository is cloned.
   */
  function EnsureCloned(cacheDir: string, repoURL: string, hasGitDir: bool): (r: (string, GitStep))
    ensures r.0 == LocalPath(cacheDir, repoURL)
    ensures r.1.Pull? <==> hasGitDir
    ensures r.1.Pull? ==> r.1.dir == r.0
    ensures r.1.Clone? ==> r.1.url == CloneURL(repoURL) && r.1.dest == r.0
  {
    var localPath := LocalPath(cacheDir, repoURL);
    if hasGitDir then (localPath, Pull(localPath)) else (localPath, Clone(CloneURL(repoURL), localPath))
  }

  /** The error EnsureCloned reports when the git step fails with `cause`. */
  function GitError(step: GitStep, cause: string): (e: string)
    ensures step.Clone? ==> HasPrefix(e, "cloning repository: ")
    ensures step.Pull? ==> HasPrefix(e, "pulling repository (try deleting " + step.dir)
  {
    match step
    case Clone(_, _) => "cloning repository: " + cause
    case Pull(dir) =>
      var head := "pulling repository (try deleting " + dir;
      assert head + " and restarting): " + cause == head + (" and restarting): " + cause);
      head + " and restarting): " + cause
  }
}
