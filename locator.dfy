/**
 * The two identifier matchers of `Gisture::Repo`: `REPO_URL_REGEX` behind
 * `parse_repo_url` and `FILE_URL_REGEX` behind `parse_file_url`.
 *
 * Both regexes are anchored (`\A` ... `\Z`) and case-insensitive (`/i`):
 *
 *   repo:  optional host prefix, owner, `/`, project, optional `/`
 *   file:  optional host prefix, owner, `/`, project, `/` and one or more path characters
 *
 * where the host prefix is `github.com/`, `http://github.com/` or
 * `https://github.com/`, and owner and project are runs (possibly empty) of
 * `[a-z0-9_\-\.]`. Ruby's `\Z` also matches just before one final newline,
 * so one trailing "\n" is accepted as well.
 *
 * The matchers are written by hand (MatchRepo, MatchFile) and proved against
 * the declarative shapes RepoShape and FileShape. Where a string has two
 * shapes, one with and one without the host prefix, the regex engine reports
 * the one that takes the prefix (its `?` is greedy), and so do the matchers.
 */
module Locator {
  import opened Errors

  /** Membership in `[a-z0-9_\-\.]` under `/i`, ASCII letters only. */
  predicate IdentChar(c: char) {
    ('a' <= c <= 'z') || ('A' <= c <= 'Z') || ('0' <= c <= '9') || c == '_' || c == '-' || c == '.'
  }

  /** Membership in the path class `[a-z0-9_\-\.\/]` under `/i`. */
  predicate PathChar(c: char) {
    IdentChar(c) || c == '/'
  }

  predicate IsIdent(s: string) {
    forall i :: 0 <= i < |s| ==> IdentChar(s[i])
  }

  predicate IsPathText(s: string) {
    forall i :: 0 <= i < |s| ==> PathChar(s[i])
  }

  /** ASCII lower-casing, which is what `/i` does to the literal parts of the regexes. */
  function Lower(c: char): char {
    if 'A' <= c <= 'Z' then (c as int + 32) as char else c
  }

  /** `s` spells the lower-case literal `lit`, ignoring ASCII case. */
  predicate CiEq(s: string, lit: string) {
    |s| == |lit| && forall i :: 0 <= i < |s| ==> Lower(s[i]) == lit[i]
  }

  predicate StartsCi(s: string, lit: string) {
    |lit| <= |s| && CiEq(s[..|lit|], lit)
  }

  const Host: string := "github.com/"
  const HttpHost: string := "http://github.com/"
  const HttpsHost: string := "https://github.com/"

  /** What the optional group `((http[s]?:\/\/)?github\.com\/)?` can match. */
  predicate IsPrefix(p: string) {
    p == [] || CiEq(p, Host) || CiEq(p, HttpHost) || CiEq(p, HttpsHost)
  }

  /** The end of a `[a-z0-9_\-\.]*` run: greedy, so the run is maximal. */
  function IdentEnd(s: string, i: nat): (j: nat)
    requires i <= |s|
    ensures i <= j <= |s|
    ensures forall m :: i <= m < j ==> IdentChar(s[m])
    ensures j == |s| || !IdentChar(s[j])
    decreases |s| - i
  {
    if i < |s| && IdentChar(s[i]) then IdentEnd(s, i + 1) else i
  }

  /** The end of a `[a-z0-9_\-\.\/]` run: greedy, so the run is maximal. */
  function PathEnd(s: string, i: nat): (j: nat)
    requires i <= |s|
    ensures i <= j <= |s|
    ensures forall m :: i <= m < j ==> PathChar(s[m])
    ensures j == |s| || !PathChar(s[j])
    decreases |s| - i
  {
    if i < |s| && PathChar(s[i]) then PathEnd(s, i + 1) else i
  }

  /**
   * The length of the host prefix the engine tries first, 0 when none fits.
   * At most one of the three host forms can start a string.
   */
  function PrefixLen(s: string): (k: nat)
    ensures k <= |s| && IsPrefix(s[..k])
  {
    if StartsCi(s, HttpsHost) then |HttpsHost|
    else if StartsCi(s, HttpHost) then |HttpHost|
    else if StartsCi(s, Host) then |Host|
    else 0
  }

  /** Whatever may follow the project in a repo identifier: `\/?` and then `\Z`. */
  predicate RepoTail(t: string) {
    t == [] || t == "/" || t == "\n" || t == "/\n"
  }

  /** Whatever may follow the path in a file identifier: `\Z`. */
  predicate FileTail(t: string) {
    t == [] || t == "\n"
  }

  /** Capture groups 1 (empty when it did not take part), 3 and 4 of `REPO_URL_REGEX`. */
  datatype RepoGroups = RepoGroups(prefix: string, owner: string, project: string)

  /** Capture groups 1 (empty when it did not take part), 4, 5 and 6 of `FILE_URL_REGEX`. */
  datatype FileGroups = FileGroups(prefix: string, owner: string, project: string, path: string)

  /**
   * From position `k` on, `s` is the owner, `/` and the project, one after
   * the other, followed by a repo tail.
   */
  ghost predicate RepoRest(s: string, k: nat, owner: string, project: string) {
    var i := k + |owner|;
    var j := i + 1 + |project|;
    && IsIdent(owner)
    && IsIdent(project)
    && j <= |s|
    && s[k..i] == owner && s[i] == '/' && s[i + 1..j] == project
    && RepoTail(s[j..])
  }

  /** `s` is a repo identifier whose capture groups are `g`: a host prefix (or none), then the rest. */
  ghost predicate RepoShape(s: string, g: RepoGroups) {
    && IsPrefix(g.prefix)
    && |g.prefix| <= |s| && s[..|g.prefix|] == g.prefix
    && RepoRest(s, |g.prefix|, g.owner, g.project)
  }

  /**
   * From position `k` on, `s` is the owner, `/`, the project and the path
   * (which keeps its leading `/`), one after the other, followed by a file tail.
   */
  ghost predicate FileRest(s: string, k: nat, owner: string, project: string, path: string) {
    var i := k + |owner|;
    var j := i + 1 + |project|;
    var e := j + |path|;
    && IsIdent(owner)
    && IsIdent(project)
    && |path| >= 2 && path[0] == '/' && IsPathText(path)
    && e <= |s|
    && s[k..i] == owner && s[i] == '/' && s[i + 1..j] == project && s[j..e] == path
    && FileTail(s[e..])
  }

  /** `s` is a file identifier whose capture groups are `g`: a host prefix (or none), then the rest. */
  ghost predicate FileShape(s: string, g: FileGroups) {
    && IsPrefix(g.prefix)
    && |g.prefix| <= |s| && s[..|g.prefix|] == g.prefix
    && FileRest(s, |g.prefix|, g.owner, g.project, g.path)
  }

  /** The repo regex, with the host prefix group fixed to the first `k` characters. */
  function MatchRepoAt(s: string, k: nat): Option<RepoGroups>
    requires k <= |s|
  {
    var i := IdentEnd(s, k);
    if i == |s| || s[i] != '/' then None
    else
      var j := IdentEnd(s, i + 1);
      if RepoTail(s[j..]) then Some(RepoGroups(s[..k], s[k..i], s[i + 1..j])) else None
  }

  /** The file regex, with the host prefix group fixed to the first `k` characters. */
  function MatchFileAt(s: string, k: nat): Option<FileGroups>
    requires k <= |s|
  {
    var i := IdentEnd(s, k);
    if i == |s| || s[i] != '/' then None
    else
      var j := IdentEnd(s, i + 1);
      if j == |s| || s[j] != '/' then None
      else
        var e := PathEnd(s, j + 1);
        if e > j + 1 && FileTail(s[e..]) then Some(FileGroups(s[..k], s[k..i], s[i + 1..j], s[j..e]))
        else None
  }

  /** `s.match(REPO_URL_REGEX)`: the prefix is tried first, then the match without it. */
  function MatchRepo(s: string): (r: Option<RepoGroups>)
    ensures r.Some? ==> RepoShape(s, r.value)
  {
    var k := PrefixLen(s);
    MatchRepoAtSound(s, k);
    assert s[..0] == [];
    MatchRepoAtSound(s, 0);
    if k > 0 && MatchRepoAt(s, k).Some? then MatchRepoAt(s, k) else MatchRepoAt(s, 0)
  }

  /** `s.match(FILE_URL_REGEX)`: the prefix is tried first, then the match without it. */
  function MatchFile(s: string): (r: Option<FileGroups>)
    ensures r.Some? ==> FileShape(s, r.value)
  {
    var k := PrefixLen(s);
    MatchFileAtSound(s, k);
    assert s[..0] == [];
    MatchFileAtSound(s, 0);
    if k > 0 && MatchFileAt(s, k).Some? then MatchFileAt(s, k) else MatchFileAt(s, 0)
  }

  /** `parse_repo_url`: `[owner, project]`, or `ArgumentError` naming the input. */
  function ParseRepoUrl(url: string): (r: Result<(string, string)>)
    ensures r.Err? ==> r.error == InvalidRepoUrl(url)
    ensures r.Ok? ==> IsIdent(r.value.0) && IsIdent(r.value.1)
  {
    match MatchRepo(url)
    case None => Err(InvalidRepoUrl(url))
    case Some(g) => Ok((g.owner, g.project))
  }

  /** `parse_file_url`: `["owner/project", path]`, or `ArgumentError` naming the input. */
  function ParseFileUrl(url: string): (r: Result<(string, string)>)
    ensures r.Err? ==> r.error == InvalidFilePath(url)
    ensures r.Ok? ==> |r.value.1| >= 2 && r.value.1[0] == '/' && IsPathText(r.value.1)
  {
    match MatchFile(url)
    case None => Err(InvalidFilePath(url))
    case Some(g) => Ok((g.owner + "/" + g.project, g.path))
  }

  // ---------------------------------------------------------------------------
  // The host prefix

  lemma LowerIsSlash(c: char)
    requires Lower(c) == '/' || Lower(c) == ':'
    ensures c == Lower(c)
  {
  }

  /** A host prefix that starts `s` is the one PrefixLen finds. */
  lemma PrefixLenOf(s: string, p: string)
    requires IsPrefix(p) && p != [] && p <= s
    ensures PrefixLen(s) == |p|
  {
    assert s[..|p|] == p;
    if CiEq(p, Host) {
      assert Lower(s[0]) == 'g';
      assert !StartsCi(s, HttpsHost) by {
        if |HttpsHost| <= |s| { assert s[..|HttpsHost|][0] == s[0]; }
      }
      assert !StartsCi(s, HttpHost) by {
        if |HttpHost| <= |s| { assert s[..|HttpHost|][0] == s[0]; }
      }
    } else if CiEq(p, HttpHost) {
      assert Lower(s[4]) == ':';
      assert !StartsCi(s, HttpsHost) by {
        if |HttpsHost| <= |s| { assert s[..|HttpsHost|][4] == s[4]; }
      }
    }
  }

  /** The last character of a non-empty host prefix is `/`. */
  lemma PrefixEndsWithSlash(p: string)
    requires IsPrefix(p) && p != []
    ensures p[|p| - 1] == '/'
  {
    LowerIsSlash(p[|p| - 1]);
  }

  // ---------------------------------------------------------------------------
  // Maximal runs

  lemma IdentEndAt(s: string, i: nat, e: nat)
    requires i <= e <= |s|
    requires forall m :: i <= m < e ==> IdentChar(s[m])
    requires e == |s| || !IdentChar(s[e])
    ensures IdentEnd(s, i) == e
  {
  }

  lemma PathEndAt(s: string, i: nat, e: nat)
    requires i <= e <= |s|
    requires forall m :: i <= m < e ==> PathChar(s[m])
    requires e == |s| || !PathChar(s[e])
    ensures PathEnd(s, i) == e
  {
  }

  lemma IdentSlice(s: string, i: nat, j: nat)
    requires i <= j <= |s|
    requires forall m :: i <= m < j ==> IdentChar(s[m])
    ensures IsIdent(s[i..j])
  {
    forall m | 0 <= m < j - i ensures IdentChar(s[i..j][m]) {
      assert s[i..j][m] == s[i + m];
    }
  }

  lemma PathSlice(s: string, i: nat, j: nat)
    requires i <= j <= |s|
    requires forall m :: i <= m < j ==> PathChar(s[m])
    ensures IsPathText(s[i..j])
  {
    forall m | 0 <= m < j - i ensures PathChar(s[i..j][m]) {
      assert s[i..j][m] == s[i + m];
    }
  }

  /** The characters of a slice that spells an identifier are identifier characters. */
  lemma IdentRange(s: string, a: nat, b: nat, x: string)
    requires a <= b <= |s| && s[a..b] == x && IsIdent(x)
    ensures forall m :: a <= m < b ==> IdentChar(s[m])
  {
    assert forall m :: a <= m < b ==> s[m] == x[m - a];
  }

  /** The characters of a slice that spells path text are path characters. */
  lemma PathRange(s: string, a: nat, b: nat, x: string)
    requires a <= b <= |s| && s[a..b] == x && IsPathText(x)
    ensures forall m :: a <= m < b ==> PathChar(s[m])
  {
    assert forall m :: a <= m < b ==> s[m] == x[m - a];
  }

  // ---------------------------------------------------------------------------
  // The repo matcher against RepoShape

  /** The matcher started at `k` finds the owner and project that follow `k`. */
  lemma RepoRestMatchesAt(s: string, k: nat, owner: string, project: string)
    requires k <= |s| && RepoRest(s, k, owner, project)
    ensures MatchRepoAt(s, k) == Some(RepoGroups(s[..k], owner, project))
  {
    var i := k + |owner|;
    var j := i + 1 + |project|;
    IdentRange(s, k, i, owner);
    IdentRange(s, i + 1, j, project);
    IdentEndAt(s, k, i);
    assert j == |s| || s[j] == '/' || s[j] == '\n' by {
      if j < |s| { assert s[j..][0] == s[j]; }
    }
    IdentEndAt(s, i + 1, j);
  }

  /** Every repo shape is found by the matcher started at the end of its prefix. */
  lemma RepoShapeMatchesAt(s: string, g: RepoGroups)
    requires RepoShape(s, g)
    ensures MatchRepoAt(s, |g.prefix|) == Some(g)
  {
    RepoRestMatchesAt(s, |g.prefix|, g.owner, g.project);
  }

  /** What the matcher started at `k` reports keeps the first `k` characters as prefix and matches the rest. */
  lemma MatchRepoAtRest(s: string, k: nat)
    requires k <= |s|
    ensures MatchRepoAt(s, k).Some? ==>
      var g := MatchRepoAt(s, k).value;
      g.prefix == s[..k] && RepoRest(s, k, g.owner, g.project)
  {
    if MatchRepoAt(s, k).Some? {
      var i := IdentEnd(s, k);
      var j := IdentEnd(s, i + 1);
      assert MatchRepoAt(s, k) == Some(RepoGroups(s[..k], s[k..i], s[i + 1..j]));
      IdentSlice(s, k, i);
      IdentSlice(s, i + 1, j);
    }
  }

  /** What the matcher started after a host prefix reports is a repo shape. */
  lemma MatchRepoAtSound(s: string, k: nat)
    requires k <= |s| && IsPrefix(s[..k])
    ensures MatchRepoAt(s, k).Some? ==> RepoShape(s, MatchRepoAt(s, k).value)
  {
    MatchRepoAtRest(s, k);
  }

  /**
   * MatchRepo finds every repo shape; it reports a shape that takes the host
   * prefix whenever there is one, and otherwise the only shape there is.
   */
  lemma MatchRepoComplete(s: string, g: RepoGroups)
    requires RepoShape(s, g)
    ensures MatchRepo(s).Some?
    ensures g.prefix != [] ==> MatchRepo(s) == Some(g)
    ensures MatchRepo(s).value.prefix == [] ==> MatchRepo(s) == Some(g)
  {
    RepoShapeMatchesAt(s, g);
    if g.prefix != [] {
      assert g.prefix <= s by { assert s[..|g.prefix|] == g.prefix; }
      PrefixLenOf(s, g.prefix);
    }
  }

  /** `parse_repo_url` succeeds exactly on the repo shapes, and its pair is one shape's owner and project. */
  lemma RepoUrlAccepted(url: string)
    ensures ParseRepoUrl(url).Ok? <==> exists g :: RepoShape(url, g)
    ensures ParseRepoUrl(url).Ok? ==>
      exists g :: RepoShape(url, g) && ParseRepoUrl(url).value == (g.owner, g.project)
  {
    if g :| RepoShape(url, g) {
      MatchRepoComplete(url, g);
    }
  }

  /**
   * `parse_repo_url` returns the owner and project of the shape the regex
   * engine prefers: one with the host prefix, or else the only one.
   */
  lemma RepoUrlFields(url: string, g: RepoGroups)
    requires RepoShape(url, g)
    requires g.prefix != [] || forall h :: RepoShape(url, h) ==> h.prefix == []
    ensures ParseRepoUrl(url) == Ok((g.owner, g.project))
  {
    MatchRepoComplete(url, g);
  }

  /** A repo shape that takes the host prefix has a `/` at the end of the prefix and another after the owner. */
  lemma PrefixedRepoShapeSlashes(s: string, g: RepoGroups)
    requires RepoShape(s, g) && g.prefix != []
    ensures s[|g.prefix| - 1] == '/' && s[|g.prefix| + |g.owner|] == '/'
  {
    PrefixEndsWithSlash(g.prefix);
    assert s[..|g.prefix|][|g.prefix| - 1] == s[|g.prefix| - 1];
  }

  /** `owner/project` with one slash parses back to the same owner and project. */
  lemma {:induction false} SingleSlashRepo(owner: string, project: string)
    requires IsIdent(owner) && IsIdent(project)
    ensures ParseRepoUrl(owner + "/" + project) == Ok((owner, project))
  {
    var id := owner + "/" + project;
    var g := RepoGroups([], owner, project);
    assert id[..0] == [] && id[0..|owner|] == owner && id[|owner|] == '/';
    assert id[|owner| + 1..|id|] == project && id[|id|..] == [];
    assert RepoShape(id, g);
    assert forall m :: 0 <= m < |owner| ==> id[m] == owner[m];
    assert forall m :: |owner| < m < |id| ==> id[m] == project[m - |owner| - 1];
    forall h | RepoShape(id, h) ensures h.prefix == [] {
      if h.prefix != [] {
        PrefixedRepoShapeSlashes(id, h);
      }
    }
    RepoUrlFields(id, g);
  }

  // ---------------------------------------------------------------------------
  // The file matcher against FileShape

  /** The matcher started at `k` finds the owner, project and path that follow `k`. */
  lemma FileRestMatchesAt(s: string, k: nat, owner: string, project: string, path: string)
    requires k <= |s| && FileRest(s, k, owner, project, path)
    ensures MatchFileAt(s, k) == Some(FileGroups(s[..k], owner, project, path))
  {
    var i := k + |owner|;
    var j := i + 1 + |project|;
    var e := j + |path|;
    IdentRange(s, k, i, owner);
    IdentRange(s, i + 1, j, project);
    PathRange(s, j, e, path);
    assert s[j] == '/' by { assert s[j..e][0] == s[j]; }
    IdentEndAt(s, k, i);
    IdentEndAt(s, i + 1, j);
    assert e == |s| || s[e] == '\n' by {
      if e < |s| { assert s[e..][0] == s[e]; }
    }
    PathEndAt(s, j + 1, e);
    MatchFileAtRuns(s, k, i, j, e);
  }

  /** The file matcher reports the groups its runs delimit. */
  lemma MatchFileAtRuns(s: string, k: nat, i: nat, j: nat, e: nat)
    requires k <= i < j && j + 1 < e <= |s|
    requires IdentEnd(s, k) == i && s[i] == '/'
    requires IdentEnd(s, i + 1) == j && s[j] == '/'
    requires PathEnd(s, j + 1) == e && FileTail(s[e..])
    ensures MatchFileAt(s, k) == Some(FileGroups(s[..k], s[k..i], s[i + 1..j], s[j..e]))
  {
  }

  /** Every file shape is found by the matcher started at the end of its prefix. */
  lemma FileShapeMatchesAt(s: string, g: FileGroups)
    requires FileShape(s, g)
    ensures MatchFileAt(s, |g.prefix|) == Some(g)
  {
    FileRestMatchesAt(s, |g.prefix|, g.owner, g.project, g.path);
  }

  /** What the file matcher started at `k` reports keeps the first `k` characters as prefix and matches the rest. */
  lemma MatchFileAtRest(s: string, k: nat)
    requires k <= |s|
    ensures MatchFileAt(s, k).Some? ==>
      var g := MatchFileAt(s, k).value;
      g.prefix == s[..k] && FileRest(s, k, g.owner, g.project, g.path)
  {
    if MatchFileAt(s, k).Some? {
      var i := IdentEnd(s, k);
      var j := IdentEnd(s, i + 1);
      var e := PathEnd(s, j + 1);
      assert MatchFileAt(s, k) == Some(FileGroups(s[..k], s[k..i], s[i + 1..j], s[j..e]));
      FileRestOfRuns(s, k, i, j, e);
    }
  }

  /** Two identifier runs and a path run, separated by `/` and followed by a file tail, are a file rest. */
  lemma FileRestOfRuns(s: string, k: nat, i: nat, j: nat, e: nat)
    requires k <= i < j && j + 1 < e <= |s| && s[i] == '/' && s[j] == '/'
    requires forall m :: k <= m < i ==> IdentChar(s[m])
    requires forall m :: i + 1 <= m < j ==> IdentChar(s[m])
    requires forall m :: j + 1 <= m < e ==> PathChar(s[m])
    requires FileTail(s[e..])
    ensures FileRest(s, k, s[k..i], s[i + 1..j], s[j..e])
  {
    IdentSlice(s, k, i);
    IdentSlice(s, i + 1, j);
    assert forall m :: j <= m < e ==> PathChar(s[m]);
    PathSlice(s, j, e);
    assert s[j..e][0] == s[j];
  }

  /** What the file matcher started after a host prefix reports is a file shape. */
  lemma MatchFileAtSound(s: string, k: nat)
    requires k <= |s| && IsPrefix(s[..k])
    ensures MatchFileAt(s, k).Some? ==> FileShape(s, MatchFileAt(s, k).value)
  {
    MatchFileAtRest(s, k);
  }

  /**
   * MatchFile finds every file shape; it reports a shape that takes the host
   * prefix whenever there is one, and otherwise the only shape there is.
   */
  lemma MatchFileComplete(s: string, g: FileGroups)
    requires FileShape(s, g)
    ensures MatchFile(s).Some?
    ensures g.prefix != [] ==> MatchFile(s) == Some(g)
    ensures MatchFile(s).value.prefix == [] ==> MatchFile(s) == Some(g)
  {
    FileShapeMatchesAt(s, g);
    if g.prefix != [] {
      PrefixLenOf(s, g.prefix);
    }
  }

  /** `parse_file_url` succeeds exactly on the file shapes, returning one shape's `owner/project` and path. */
  lemma FileUrlAccepted(url: string)
    ensures ParseFileUrl(url).Ok? <==> exists g :: FileShape(url, g)
    ensures ParseFileUrl(url).Ok? ==>
      exists g :: FileShape(url, g) && ParseFileUrl(url).value == (g.owner + "/" + g.project, g.path)
  {
    if g :| FileShape(url, g) {
      MatchFileComplete(url, g);
    }
  }

  /**
   * `parse_file_url` returns `owner/project` and the path, verbatim, of the
   * shape the regex engine prefers: one with the host prefix, or else the only one.
   */
  lemma FileUrlFields(url: string, g: FileGroups)
    requires FileShape(url, g)
    requires g.prefix != [] || forall h :: FileShape(url, h) ==> h.prefix == []
    ensures ParseFileUrl(url) == Ok((g.owner + "/" + g.project, g.path))
  {
    MatchFileComplete(url, g);
  }

  /**
   * Class-level `file` hands the first part of a parsed file identifier to
   * `new`, which parses it with `parse_repo_url`: that parse always succeeds,
   * with the file match's owner and project (groups 4 and 5).
   */
  lemma FileIdentifierParsesAsRepo(url: string)
    requires MatchFile(url).Some?
    ensures ParseFileUrl(url).Ok?
    ensures ParseRepoUrl(ParseFileUrl(url).value.0) == Ok((MatchFile(url).value.owner, MatchFile(url).value.project))
  {
    var g := MatchFile(url).value;
    SingleSlashRepo(g.owner, g.project);
  }

  // ---------------------------------------------------------------------------
  // Identifiers worth spelling out

  /** The host prefix is taken: `github.com/acme/widgets` names `acme/widgets`. */
  lemma HostPrefixTaken()
    ensures ParseRepoUrl("github.com/acme/widgets") == Ok(("acme", "widgets"))
  {
    HostedShape();
    MatchRepoComplete("github.com/acme/widgets", RepoGroups(Host, "acme", "widgets"));
  }

  lemma HostedShape()
    ensures RepoShape("github.com/acme/widgets", RepoGroups(Host, "acme", "widgets"))
  {
    var s := "github.com/acme/widgets";
    assert IsPrefix(Host) by {
      forall i | 0 <= i < |Host| ensures Lower(Host[i]) == Host[i] {
        assert Host[i] in "github.com/";
      }
    }
    assert RepoRest(s, 11, "acme", "widgets") by {
      assert s[11..15] == "acme" && s[15] == '/' && s[16..23] == "widgets" && s[23..] == [];
    }
    assert s[..11] == Host;
  }

  /** Without a second slash, `github.com` is just an owner (`.` is an identifier character). */
  lemma HostAsOwner()
    ensures ParseRepoUrl("github.com/x") == Ok(("github.com", "x"))
  {
    assert "github.com" + "/" + "x" == "github.com/x";
    SingleSlashRepo("github.com", "x");
  }

  /** Owner and project may be empty: `acme/` names owner `acme` with an empty project. */
  lemma EmptyProjectAccepted()
    ensures ParseRepoUrl("acme/") == Ok(("acme", ""))
  {
    assert "acme" + "/" + "" == "acme/";
    SingleSlashRepo("acme", "");
  }

  /** A string that starts with neither `g` nor `h` (in any case) has no shape that takes the host prefix. */
  lemma NoHostRepo(s: string, h: RepoGroups)
    requires RepoShape(s, h) && s != [] && Lower(s[0]) != 'g' && Lower(s[0]) != 'h'
    ensures h.prefix == []
  {
  }

  lemma NoHostFile(s: string, h: FileGroups)
    requires FileShape(s, h) && s != [] && Lower(s[0]) != 'g' && Lower(s[0]) != 'h'
    ensures h.prefix == []
  {
  }

  /**
   * When no file shape of `owner/project/path` takes the host prefix, it
   * parses to `owner/project` and the path exactly as written: leading `/`
   * kept, `.` and `..` untouched.
   */
  lemma PlainFileUrl(owner: string, project: string, path: string)
    requires IsIdent(owner) && IsIdent(project)
    requires |path| >= 2 && path[0] == '/' && IsPathText(path)
    requires forall h :: FileShape(owner + "/" + project + path, h) ==> h.prefix == []
    ensures ParseFileUrl(owner + "/" + project + path) == Ok((owner + "/" + project, path))
  {
    var s := owner + "/" + project + path;
    var i := |owner|;
    var j := i + 1 + |project|;
    assert s[..0] == [] && s[0..i] == owner && s[i] == '/';
    assert s[i + 1..j] == project && s[j..|s|] == path && s[|s|..] == [];
    FileUrlFields(s, FileGroups([], owner, project, path));
  }

  /** A string that does not start with a host prefix, in any case, has no file shape that takes one. */
  lemma NoHostPrefixFile(s: string)
    requires PrefixLen(s) == 0
    ensures forall h :: FileShape(s, h) ==> h.prefix == []
  {
    forall h | FileShape(s, h) ensures h.prefix == [] {
      if h.prefix != [] {
        PrefixLenOf(s, h.prefix);
      }
    }
  }

  /** `acme/widgets/scripts/run.rb` gives `acme/widgets` and the path `/scripts/run.rb`. */
  lemma FilePathKeepsSlash()
    ensures ParseFileUrl("acme/widgets/scripts/run.rb") == Ok(("acme/widgets", "/scripts/run.rb"))
  {
    var path := "/scripts/run.rb";
    var id := "acme" + "/" + "widgets";
    assert id == "acme/widgets";
    assert id + path == "acme/widgets/scripts/run.rb";
    assert ParseFileUrl(id + path) == Ok((id, path)) by {
      assert IsPathText(path) by {
        forall i | 0 <= i < |path| ensures PathChar(path[i]) {
          assert path[i] in "/scriptsrun.b";
        }
      }
      forall h | FileShape(id + path, h) ensures h.prefix == [] {
        NoHostFile(id + path, h);
      }
      PlainFileUrl("acme", "widgets", path);
    }
  }

  /** `..` in the path is kept as written, not resolved. */
  lemma FilePathNotNormalised()
    ensures ParseFileUrl("acme/widgets/../x") == Ok(("acme/widgets", "/../x"))
  {
    var id := "acme" + "/" + "widgets";
    assert id == "acme/widgets";
    assert id + "/../x" == "acme/widgets/../x";
    assert ParseFileUrl(id + "/../x") == Ok((id, "/../x")) by {
      forall h | FileShape(id + "/../x", h) ensures h.prefix == [] {
        NoHostFile(id + "/../x", h);
      }
      PlainFileUrl("acme", "widgets", "/../x");
    }
  }

  /** Ruby's `\Z` lets one final newline through a repo identifier; the groups exclude it. */
  lemma RepoTrailingNewline()
    ensures ParseRepoUrl("acme/widgets/\n") == Ok(("acme", "widgets"))
  {
    var s := "acme/widgets/\n";
    var g := RepoGroups([], "acme", "widgets");
    assert s[..0] == [] && s[0..4] == "acme" && s[4] == '/' && s[5..12] == "widgets" && s[12..] == "/\n";
    forall h | RepoShape(s, h) ensures h.prefix == [] {
      NoHostRepo(s, h);
    }
    RepoUrlFields(s, g);
  }

  /** The same for a file identifier: the newline is not part of the path. */
  lemma FileTrailingNewline()
    ensures ParseFileUrl("acme/widgets/x\n") == Ok(("acme/widgets", "/x"))
  {
    var s := "acme/widgets/x\n";
    var g := FileGroups([], "acme", "widgets", "/x");
    var id := g.owner + "/" + g.project;
    assert id == "acme/widgets";
    NewlineFileShape();
    forall h | FileShape(s, h) ensures h.prefix == [] {
      NoHostFile(s, h);
    }
    FileUrlFields(s, g);
  }

  lemma NewlineFileShape()
    ensures FileShape("acme/widgets/x\n", FileGroups([], "acme", "widgets", "/x"))
  {
    var s := "acme/widgets/x\n";
    assert s[0..4] == "acme" && s[4] == '/' && s[5..12] == "widgets";
    assert s[12..14] == "/x" && s[14..] == "\n";
    assert s[..0] == [];
  }
}
