/**
 * `Gisture::Repo`: a GitHub repository admitted through the owner whitelist,
 * its local clone below `tmpdir` (created by `clone!`, removed by
 * `destroy_clone!`, recognised by the `.gisture` marker), and the two `file`
 * entry points that read a file from the clone when there is one and from the
 * GitHub contents API otherwise.
 */
module Repository {
  import opened Errors
  import opened Locator
  import opened Paths
  import opened Disk
  import opened Remote

  /** The marker file `clone!` writes and `cloned?` reads. */
  const Marker: string := ".gisture"
  /** The git metadata directory `clone!` deletes. */
  const GitDir: string := ".git"

  /** The configuration values the repository reads: the cache root and the owner whitelist. */
  datatype Config = Config(tmpdir: string, whitelisted: string -> bool)

  /** The handle `file` returns: a file in the local clone, or contents fetched from GitHub. */
  datatype FileHandle =
    | ClonedFile(path: string, basename: string, strategy: Option<string>)
    | RepoFile(content: string, basename: string, strategy: Option<string>)

  /** How the block given to `clone!` ends, and the filesystem it leaves. */
  datatype BlockOutcome = Returned(tree: Tree) | Raised(tree: Tree)

  /**
   * `initialize`: the identifier is parsed first (an invalid one is rejected
   * naming the input), then an owner the whitelist does not admit is rejected
   * naming the owner.
   */
  function Admit(identifier: string, whitelisted: string -> bool): (r: Result<(string, string)>)
    ensures r.Ok? ==> r == ParseRepoUrl(identifier) && whitelisted(r.value.0)
    ensures r.Err? ==> r.error == InvalidRepoUrl(identifier) || r.error.OwnerBlacklisted?
    ensures r.Err? && r.error.OwnerBlacklisted? ==>
      ParseRepoUrl(identifier).Ok? && r.error.owner == ParseRepoUrl(identifier).value.0 && !whitelisted(r.error.owner)
    ensures r.Err? && r.error.InvalidRepoUrl? ==> ParseRepoUrl(identifier).Err?
    ensures ParseRepoUrl(identifier).Ok? ==> (r.Ok? <==> whitelisted(ParseRepoUrl(identifier).value.0))
  {
    match ParseRepoUrl(identifier)
    case Err(e) => Err(e)
    case Ok((owner, project)) =>
      if whitelisted(owner) then Ok((owner, project)) else Err(OwnerBlacklisted(owner))
  }

  /**
   * The gate in terms of the identifier's shape: an identifier of no repo
   * shape is rejected as invalid; otherwise the owner the parse picks is
   * admitted exactly when it is whitelisted.
   */
  lemma AdmitSpec(identifier: string, whitelisted: string -> bool)
    ensures Admit(identifier, whitelisted) == Err(InvalidRepoUrl(identifier)) <==> !exists g :: RepoShape(identifier, g)
    ensures Admit(identifier, whitelisted).Ok? <==>
      exists g :: RepoShape(identifier, g) && ParseRepoUrl(identifier) == Ok((g.owner, g.project)) && whitelisted(g.owner)
    ensures Admit(identifier, whitelisted).Err? && Admit(identifier, whitelisted).error.OwnerBlacklisted? <==>
      exists g :: RepoShape(identifier, g) && ParseRepoUrl(identifier) == Ok((g.owner, g.project)) && !whitelisted(g.owner)
  {
    RepoUrlAccepted(identifier);
  }

  /** Where `clone!` puts a repository: the entries of `File.join(tmpdir, owner, project)`. */
  function RootOf(tmpdir: string, owner: string, project: string): Path {
    Segments(ClonePathOf(tmpdir, owner, project))
  }

  /** `cloned?` is truthy: the marker below the clone directory can be read. */
  predicate Cloned(t: Tree, root: Path): (b: bool)
    ensures b <==> root + [Marker] in t && t[root + [Marker]].File?
  {
    ReadFile(t, root + [Marker]).Some?
  }

  /**
   * The filesystem `clone!` leaves before writing the marker: the old clone
   * removed, the `git clone` output `fetched` placed in the clone directory,
   * and its `.git` directory removed.
   */
  function Staged(t: Tree, root: Path, fetched: Tree): (r: Tree)
    ensures forall p :: !(root <= p) ==> (p in r <==> p in t) && (p in t ==> r[p] == t[p])
    ensures forall p :: root + p in r <==> p in fetched && !([GitDir] <= p)
    ensures forall p :: root + p in r ==> r[root + p] == fetched[p]
  {
    var cleared := RemoveSubtree(t, root);
    var populated := Graft(cleared, root, fetched);
    var r := RemoveSubtree(populated, root + [GitDir]);
    assert forall p :: (root + [GitDir] <= root + p) == ([GitDir] <= p) by {
      forall p ensures (root + [GitDir] <= root + p) == ([GitDir] <= p) {
        PrefixBelow(root, [GitDir], p);
      }
    }
    assert forall p :: root + p in populated <==> p in fetched by {
      forall p ensures root + p in populated <==> p in fetched {
        assert root <= root + p;
        assert root + p !in cleared;
      }
    }
    r
  }

  /** The characters `String#strip` removes. */
  predicate IsSpace(c: char) {
    c == ' ' || c == '\0' || (9 <= c as int <= 13)
  }

  /** The first index at or after `i` that is not whitespace, or `|s|`. */
  function SpanStart(s: string, i: nat): (j: nat)
    requires i <= |s|
    ensures i <= j <= |s|
    ensures forall m :: i <= m < j ==> IsSpace(s[m])
    ensures j == |s| || !IsSpace(s[j])
    decreases |s| - i
  {
    if i < |s| && IsSpace(s[i]) then SpanStart(s, i + 1) else i
  }

  /** The end of `s[lo..j]` once its trailing whitespace is dropped. */
  function SpanEnd(s: string, lo: nat, j: nat): (k: nat)
    requires lo <= j <= |s|
    ensures lo <= k <= j
    ensures forall m :: k <= m < j ==> IsSpace(s[m])
    ensures k == lo || !IsSpace(s[k - 1])
    decreases j - lo
  {
    if lo < j && IsSpace(s[j - 1]) then SpanEnd(s, lo, j - 1) else j
  }

  /**
   * `File.read(...).strip` as `cloned?` returns it: leading and trailing
   * whitespace and NUL characters removed, the rest kept.
   */
  function Strip(s: string): (r: string)
    ensures r == [] || (!IsSpace(r[0]) && !IsSpace(r[|r| - 1]))
    ensures exists i :: (0 <= i <= |s| && r <= s[i..] &&
                         forall m :: 0 <= m < |s| && !(i <= m < i + |r|) ==> IsSpace(s[m]))
  {
    var i := SpanStart(s, 0);
    var k := SpanEnd(s, i, |s|);
    var r := s[i..k];
    assert r <= s[i..] && |r| == k - i;
    assert r == [] || (r[0] == s[i] && r[|r| - 1] == s[k - 1]);
    assert forall m :: 0 <= m < |s| && !(i <= m < i + |r|) ==> IsSpace(s[m]);
    r
  }

  /**
   * Instance `file`: a local handle on `File.join(clone_path, path)` when the
   * clone is valid, the fetched contents otherwise; the basename is
   * `owner/project` and the strategy is passed through in both cases.
   */
  function ResolveFile(tmpdir: string, owner: string, project: string, path: string, strategy: Option<string>,
                       t: Tree, contents: map<Request, string>): (r: Result<FileHandle>)
    ensures r.Ok? ==> r.value.basename == owner + "/" + project && r.value.strategy == strategy
    ensures (r.Ok? && r.value.ClonedFile?) <==> Cloned(t, RootOf(tmpdir, owner, project))
    ensures r.Ok? && r.value.ClonedFile? ==>
      Segments(r.value.path) == RootOf(tmpdir, owner, project) + Segments(path)
    ensures r.Ok? && r.value.RepoFile? ==>
      Request(owner, project, path) in contents && r.value.content == contents[Request(owner, project, path)]
    ensures r.Err? <==> !Cloned(t, RootOf(tmpdir, owner, project)) && Request(owner, project, path) !in contents
    ensures r.Err? ==> r.error == RemoteFetchFailed(owner, project, path)
  {
    var basename := owner + "/" + project;
    if Cloned(t, RootOf(tmpdir, owner, project)) then
      Ok(ClonedFile(Join(ClonePathOf(tmpdir, owner, project), path), basename, strategy))
    else
      match Fetch(contents, Request(owner, project, path))
      case Ok(body) => Ok(RepoFile(body, basename, strategy))
      case Err(e) => Err(e)
  }

  // ---------------------------------------------------------------------------
  // Helpers on path names.

  lemma PrefixBelow(root: Path, a: Path, p: Path)
    ensures (root + a <= root + p) == (a <= p)
  {
    if a <= p {
      assert root + p == root + a + p[|a|..];
    }
    if root + a <= root + p {
      PrefixCancel(root, a, p);
    }
  }

  lemma PrefixCancel(root: Path, a: Path, p: Path)
    requires root + a <= root + p
    ensures a <= p
  {
    assert |a| <= |p|;
    forall i | 0 <= i < |a| ensures a[i] == p[i] {
      assert (root + a)[|root| + i] == (root + p)[|root| + i];
    }
  }

  /** A name written after `/` is one more entry below the directory. */
  lemma InsideDir(dir: string, name: string)
    requires name != [] && NoSlash(name)
    ensures Segments(dir + "/" + name) == Segments(dir) + [name]
  {
    SegmentsSlash(dir, name);
    SegmentsOfName(name);
  }

  lemma MarkerAndGitDirAreNames()
    ensures Marker != [] && NoSlash(Marker) && GitDir != [] && NoSlash(GitDir) && Marker != GitDir
  {
    assert Marker[3] != GitDir[3];
  }

  class Repo {
    const owner: string
    const project: string
    const tmpdir: string
    /** The whitelist the repository was admitted by. */
    ghost const whitelisted: string -> bool

    /** Every repository has passed the gate: its names parse and its owner is whitelisted. */
    ghost predicate Admitted() {
      whitelisted(owner) && IsIdent(owner) && IsIdent(project)
    }

    constructor (owner: string, project: string, tmpdir: string, ghost whitelisted: string -> bool)
      requires whitelisted(owner) && IsIdent(owner) && IsIdent(project)
      ensures this.owner == owner && this.project == project && this.tmpdir == tmpdir
      ensures this.whitelisted == whitelisted && Admitted()
    {
      this.owner := owner;
      this.project := project;
      this.tmpdir := tmpdir;
      this.whitelisted := whitelisted;
    }

    /** `Repo.new`: the parse and the whitelist gate come before anything else happens. */
    static method New(identifier: string, config: Config) returns (r: Result<Repo>)
      ensures r.Err? <==> Admit(identifier, config.whitelisted).Err?
      ensures r.Err? ==> r.error == Admit(identifier, config.whitelisted).error
      ensures r.Ok? ==> fresh(r.value) && r.value.tmpdir == config.tmpdir
      ensures r.Ok? ==> (r.value.owner, r.value.project) == Admit(identifier, config.whitelisted).value
      ensures r.Ok? ==> r.value.whitelisted == config.whitelisted && r.value.Admitted()
    {
      match Admit(identifier, config.whitelisted)
      case Err(e) => r := Err(e);
      case Ok((owner, project)) =>
        var repo := new Repo(owner, project, config.tmpdir, config.whitelisted);
        r := Ok(repo);
    }

    /** `clone_path`: the owner's and then the project's entry below `tmpdir`. */
    function ClonePath(): (p: string)
      ensures Segments(p) == Segments(tmpdir) + Segments(owner) + Segments(project)
    {
      ClonePathOf(tmpdir, owner, project)
    }

    function Root(): Path {
      RootOf(tmpdir, owner, project)
    }

    /** The path string `clone!` writes the marker to. */
    function MarkerPath(): string {
      ClonePath() + "/" + Marker
    }

    /** `cloned?`: the stripped marker contents, or `None` for any read error. */
    method IsCloned(fs: FileSystem) returns (marker: Option<string>)
      requires Admitted()
      ensures marker.Some? <==> Cloned(fs.tree, Root())
      ensures marker.Some? ==> marker.value == Strip(fs.tree[Root() + [Marker]].data)
    {
      MarkerAndGitDirAreNames();
      InsideDir(ClonePath(), Marker);
      var content := fs.Read(MarkerPath());
      marker := if content.Some? then Some(Strip(content.value)) else None;
    }

    /** `destroy_clone!`. */
    method DestroyClone(fs: FileSystem)
      requires Admitted()
      modifies fs
      ensures fs.tree == RemoveSubtree(old(fs.tree), Root())
    {
      fs.RmRf(ClonePath());
    }

    /**
     * `clone!`: destroy, let `git clone` put `fetched` into the clone
     * directory, delete its `.git`, write the marker `stamp`; then run the
     * block, if any, and destroy the clone again unless the block raised.
     */
    method Clone(fs: FileSystem, fetched: Tree, stamp: string, block: Option<Tree -> BlockOutcome>)
      returns (r: Result<Repo>)
      requires Admitted()
      modifies fs
      ensures var staged := Staged(old(fs.tree), Root(), fetched);
        var written := WriteFile(staged, Root() + [Marker], stamp);
        if written.None? then r == Err(MarkerWriteFailed(MarkerPath())) && fs.tree == staged
        else if block.None? then r == Ok(this) && fs.tree == written.value
        else match block.value(written.value)
          case Returned(t) => r == Ok(this) && fs.tree == RemoveSubtree(t, Root())
          case Raised(t) => r == Err(BlockRaised) && fs.tree == t
    {
      MarkerAndGitDirAreNames();
      InsideDir(ClonePath(), GitDir);
      InsideDir(ClonePath(), Marker);
      DestroyClone(fs);
      fs.Populate(ClonePath(), fetched);
      fs.RmRf(ClonePath() + "/" + GitDir);
      var ok := fs.Write(MarkerPath(), stamp);
      if !ok {
        return Err(MarkerWriteFailed(MarkerPath()));
      }
      if block.Some? {
        match block.value(fs.tree)
        case Raised(t) =>
          fs.tree := t;
          return Err(BlockRaised);
        case Returned(t) =>
          fs.tree := t;
          DestroyClone(fs);
      }
      r := Ok(this);
    }

    /** Instance `file`: reads only; a remote request is made exactly when there is no valid clone. */
    method File(path: string, strategy: Option<string>, fs: FileSystem, api: GitHubApi)
      returns (h: Result<FileHandle>)
      requires Admitted()
      modifies api
      ensures h == ResolveFile(tmpdir, owner, project, path, strategy, fs.tree, api.contents)
      ensures api.requests == if Cloned(fs.tree, Root()) then old(api.requests)
        else old(api.requests) + [Request(owner, project, path)]
    {
      var marker := IsCloned(fs);
      var basename := owner + "/" + project;
      if marker.Some? {
        h := Ok(ClonedFile(Join(ClonePath(), path), basename, strategy));
      } else {
        var body := api.GetContents(owner, project, path);
        match body
        case Ok(content) => h := Ok(RepoFile(content, basename, strategy));
        case Err(e) => h := Err(e);
      }
    }

    /**
     * Class-level `file`: split the file identifier, admit its `owner/project`
     * part, then resolve the path in that repository. An invalid identifier
     * or a rejected owner is reported before any request is made, and the
     * `owner/project` part of a valid file identifier is always a valid
     * repository identifier.
     */
    static method FileFromUrl(url: string, strategy: Option<string>, config: Config, fs: FileSystem, api: GitHubApi)
      returns (h: Result<FileHandle>)
      modifies api
      ensures ParseFileUrl(url).Err? ==> h == Err(InvalidFilePath(url)) && api.requests == old(api.requests)
      ensures ParseFileUrl(url).Ok? ==>
        var g := MatchFile(url).value;
        if !config.whitelisted(g.owner) then
          h == Err(OwnerBlacklisted(g.owner)) && api.requests == old(api.requests)
        else
          && h == ResolveFile(config.tmpdir, g.owner, g.project, ParseFileUrl(url).value.1, strategy, fs.tree, api.contents)
          && api.requests == if Cloned(fs.tree, RootOf(config.tmpdir, g.owner, g.project)) then old(api.requests)
            else old(api.requests) + [Request(g.owner, g.project, ParseFileUrl(url).value.1)]
      ensures !(h.Err? && h.error.InvalidRepoUrl?)
    {
      match ParseFileUrl(url)
      case Err(e) =>
        h := Err(e);
      case Ok((identifier, path)) =>
        FileIdentifierParsesAsRepo(url);
        var repo := New(identifier, config);
        match repo
        case Err(e) =>
          h := Err(e);
        case Ok(r) =>
          h := r.File(path, strategy, fs, api);
    }
  }
}
