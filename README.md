# Gisture repository resolution, modelled in Dafny

This project models `Gisture::Repo`, the part of gisture that turns a GitHub
reference into a file to run. The reference is either a repository identifier
(`owner/project`, optionally prefixed by `http(s)://github.com/`) or a file
identifier (`owner/project/path`). The model covers:

- the two anchored, case-insensitive regular expressions that split these
  identifiers (`Locator`);
- the owner whitelist gate applied when a `Repo` is created (`Repository.Admit`,
  `Repository.Repo.New`);
- the clone cache below `tmpdir`: `clone_path`, `clone!`, `destroy_clone!` and
  `cloned?` (`Paths`, `Disk`, `Repository.Repo`, `Lifecycle`);
- the instance and class-level `file`, which read from the clone when it is
  valid and from the GitHub contents API otherwise (`Repository.Repo.File`,
  `Repository.Repo.FileFromUrl`).

Modules:

- `Errors`: `Option`, `Result` and the error cases. Each error case stands for
  an exception the Ruby code raises: `ArgumentError` for either identifier,
  `OwnerBlacklisted`, the `File.write` error, an exception from the block, and
  a failed contents request.
- `Locator`: the parsers. Each is a hand-written matcher over characters. Its
  soundness and completeness are proved against a declarative shape predicate
  (`RepoShape`, `FileShape`): an optional prefix, the character class
  `[A-Za-z0-9_.-]*`, `/`, and so on.
- `Paths`: Ruby's `File.join` and the list of directory entries a path string
  names once repeated separators collapse (`Segments`).
- `Disk`: a filesystem as a map from entry names to directories and files. It
  provides `rm_rf`, `File.read` and `File.write`, plus the entries an external
  `git clone` creates. The `FileSystem` class holds the tree, which the cache
  operations change in place.
- `Remote`: the contents API as a fixed table, plus a log of the requests made.
- `Repository`: the configuration, the gate, and the `Repo` class with its
  cache and `file` methods.
- `Lifecycle`: properties that span several operations.

The regular expressions are followed as written:

- Owner and project use `*`, so either may be empty.
- `.` is in the class, so `github.com/x` parses as owner `github.com` and
  project `x`.
- The optional host prefix is greedy: a match that takes the prefix is
  preferred, and the parser falls back to no prefix only when that fails.
- Ruby's `\Z` also matches before one final newline, and this is modelled.
- The file path keeps its leading `/`, and `.` and `..` stay as written.

## Model

| member | source | states |
|---|---|---|
| Locator.ParseRepoUrl | lib/gisture/repo.rb:17-21 | on failure the error names the input; on success owner and project are both over `[A-Za-z0-9_.-]*` |
| Locator.RepoUrlAccepted | lib/gisture/repo.rb:4 | `parse_repo_url` succeeds exactly on strings of the repo shape (optional prefix, owner, `/`, project, optional `/`, optional final newline), and returns one such shape's owner and project |
| Locator.RepoUrlFields | lib/gisture/repo.rb:4 | the returned pair is that of the shape with the host prefix when there is one, otherwise that of the only shape |
| Locator.MatchRepo | lib/gisture/repo.rb:18 | `repo_url.match(REPO_URL_REGEX)`: every match it reports has the repo shape |
| Locator.MatchRepoComplete | lib/gisture/repo.rb:4 | every string of the repo shape is matched, and a shape with the prefix is the one reported |
| Locator.SingleSlashRepo | lib/gisture/repo.rb:4 | for any two class strings, `owner/project` parses back to exactly `(owner, project)` |
| Locator.HostPrefixTaken | lib/gisture/repo.rb:4 | `github.com/acme/widgets` parses as `(acme, widgets)`: the prefix group is taken |
| Locator.HostAsOwner | lib/gisture/repo.rb:4 | `github.com/x` parses as owner `github.com` and project `x` |
| Locator.EmptyProjectAccepted | lib/gisture/repo.rb:4 | `acme/` parses as owner `acme` with an empty project |
| Locator.RepoTrailingNewline | lib/gisture/repo.rb:4 | `\Z` accepts one final newline after the optional `/` |
| Locator.ParseFileUrl | lib/gisture/repo.rb:23-27 | on failure the error names the input; on success the path has at least two characters, starts with `/` and is over `[A-Za-z0-9_./-]` |
| Locator.FileUrlAccepted | lib/gisture/repo.rb:5 | `parse_file_url` succeeds exactly on strings of the file shape, and returns `owner/project` and the path of one such shape |
| Locator.FileUrlFields | lib/gisture/repo.rb:5 | the returned pair is `owner + "/" + project` and the path, verbatim, of the preferred shape |
| Locator.MatchFile | lib/gisture/repo.rb:24 | `file_url.match(FILE_URL_REGEX)`: every match it reports has the file shape |
| Locator.MatchFileComplete | lib/gisture/repo.rb:5 | every string of the file shape is matched, and a shape with the prefix is the one reported |
| Locator.PlainFileUrl | lib/gisture/repo.rb:5 | whenever no file shape of `owner/project/path` takes the host prefix, it splits into `owner/project` and the path with its leading `/`, for any class strings `owner` and `project` (empty ones included) |
| Locator.NoHostPrefixFile | lib/gisture/repo.rb:5 | a string that does not start with `github.com/`, `http://github.com/` or `https://github.com/` (in any case) has no file shape that takes the prefix, so `PlainFileUrl` applies to it |
| Locator.FilePathKeepsSlash | lib/gisture/repo.rb:26 | `acme/widgets/scripts/run.rb` gives the path `/scripts/run.rb` |
| Locator.FilePathNotNormalised | lib/gisture/repo.rb:5 | `acme/widgets/../x` gives the path `/../x`, with nothing removed |
| Locator.FileTrailingNewline | lib/gisture/repo.rb:5 | a final newline is accepted and is not part of the path |
| Locator.FileIdentifierParsesAsRepo | lib/gisture/repo.rb:8-10 | whenever `parse_file_url` succeeds, `parse_repo_url` of its first component succeeds with the file match's owner and project |
| Paths.ChompSeps | lib/gisture/repo.rb:55 | `File.join`'s separator trimming removes only trailing `/` characters and leaves none |
| Paths.Join | lib/gisture/repo.rb:42 | `File.join(a, b)` ends with `b` as written and names the entries of `a` followed by those of `b`, whatever separators either has at the join |
| Paths.ClonePathOf | lib/gisture/repo.rb:54-56 | `clone_path` names the entries of `tmpdir`, then the owner's, then the project's |
| Paths.ClonePathInjective | lib/gisture/repo.rb:54-56 | for non-empty names without `/`, equal clone paths mean equal owner and project, and conversely |
| Disk.RemoveSubtree | lib/gisture/repo.rb:79 | `rm_rf` removes the directory and every entry below it, keeps every other entry unchanged, and does not fail on a missing path |
| Disk.ReadFile | lib/gisture/repo.rb:83 | `File.read` succeeds exactly on a regular file and gives its contents |
| Disk.WriteFile | lib/gisture/repo.rb:68 | `File.write` succeeds exactly when the parent is a directory and the target is not one; the file then reads back the data, and nothing else changes |
| Disk.Graft | lib/gisture/repo.rb:66 | the `git clone` output appears below the clone directory, and entries outside it are untouched |
| Disk.FileSystem.RmRf | lib/gisture/repo.rb:79 | the tree afterwards is `RemoveSubtree` of the old tree at the path's entries |
| Disk.FileSystem.Read | lib/gisture/repo.rb:83 | the result is `ReadFile` of the current tree, and nothing changes |
| Disk.FileSystem.Write | lib/gisture/repo.rb:68 | on success the tree is `WriteFile`'s result; on failure it is unchanged |
| Disk.FileSystem.Populate | lib/gisture/repo.rb:66 | the tree afterwards is the old tree with the clone output grafted below the path |
| Remote.Fetch | lib/gisture/repo.rb:45 | the contents request succeeds exactly when the service holds the file, and fails naming owner, project and path |
| Remote.GitHubApi.GetContents | lib/gisture/repo.rb:45 | each call logs exactly one request and returns the service's answer to it |
| Repository.Admit | lib/gisture/repo.rb:90-93 | an invalid identifier (and only an invalid one) is rejected naming the input; a parsable one is admitted exactly when its owner is whitelisted, otherwise rejected naming that owner; an admitted pair is the parsed one |
| Repository.AdmitSpec | lib/gisture/repo.rb:90-93 | the gate in terms of the repo shape: invalid exactly when there is no shape; admitted exactly when the parsed owner is whitelisted; blacklisted exactly when it is not |
| Repository.Staged | lib/gisture/repo.rb:65-67 | after destroy, populate and removal of `.git`, entries outside the clone directory are as before, and the inside holds exactly the clone output minus `.git` |
| Repository.Strip | lib/gisture/repo.rb:83 | `strip` returns one contiguous piece of its input; everything outside that piece is whitespace or NUL, and the piece neither starts nor ends with either |
| Repository.ResolveFile | lib/gisture/repo.rb:40-48 | local handle exactly when the clone is valid, on the entries of the clone directory followed by the path's; otherwise the fetched contents, and an error exactly when there is no valid clone and the service does not hold the file; the basename is `owner/project` and the strategy is passed through in both branches |
| Repository.Cloned | lib/gisture/repo.rb:82-86 | `cloned?` is truthy exactly when the marker below the clone directory is a regular file |
| Repository.Repo.constructor | lib/gisture/repo.rb:90-93 | a repository object exists only for class-string names whose owner is whitelisted (`Admitted`), which every other `Repo` method requires |
| Repository.Repo.New | lib/gisture/repo.rb:90-93 | the new repo exists exactly when `Admit` accepts, with `Admit`'s owner and project, and is admitted by the configured whitelist; otherwise the error is `Admit`'s; no filesystem or request is involved |
| Repository.Repo.ClonePath | lib/gisture/repo.rb:54-56 | the repository's `clone_path` names the entries of `tmpdir`, then the owner's, then the project's |
| Repository.Repo.IsCloned | lib/gisture/repo.rb:82-86 | the result is present exactly when the marker is a readable file, whatever it holds, and is its stripped contents |
| Repository.Repo.DestroyClone | lib/gisture/repo.rb:78-80 | the filesystem afterwards is the old one with the clone directory's subtree removed |
| Repository.Repo.Clone | lib/gisture/repo.rb:58-76 | the filesystem is `Staged` and then the marker write. A write failure is an error. Without a block the result is `self` with the marker written. With a block that returns, the clone is destroyed again and the result is `self`. With a block that raises, there is no teardown. |
| Repository.Repo.File | lib/gisture/repo.rb:40-48 | the handle is `ResolveFile` of the current filesystem; a request is logged exactly when the clone is not valid; the filesystem is not changed |
| Repository.Repo.FileFromUrl | lib/gisture/repo.rb:8-11 | an invalid file identifier, or a non-whitelisted owner, is reported before any request; otherwise the result is `ResolveFile` for the matched owner, project and path, and one request is logged exactly when there is no valid clone; the invalid-repo error never occurs |
| Lifecycle.DestroyInvalidates | lib/gisture/repo.rb:78-86 | `destroy_clone!` is idempotent, and `cloned?` is false after it |
| Lifecycle.MarkerWritable | lib/gisture/repo.rb:65-68 | the marker write succeeds exactly when `git clone` created the clone directory (or it is the filesystem root) and no `.gisture` directory |
| Lifecycle.CloneValidates | lib/gisture/repo.rb:65-68 | after a successful `clone!` without a block, `cloned?` holds and reads the stamp, nothing is left below `.git`, the clone holds the clone output minus `.git`, and everything outside is unchanged |
| Lifecycle.DestroyLeavesOtherClones | lib/gisture/repo.rb:78-80 | for distinct plain names (non-empty, without `/`, neither `.` nor `..`), destroying one clone leaves every entry below the other clone directory, and its validity, unchanged |
| Paths.PlainClonePath | lib/gisture/repo.rb:55 | the clone directory of non-empty names without `/` is `tmpdir`'s entries plus the owner and then the project |
| Lifecycle.EmptyProjectCoversOwner | lib/gisture/repo.rb:54-56 | with an empty project, the clone directory is the owner's directory, so destroying it invalidates every clone of that owner |
| Lifecycle.DestroyingAcmeSlashWipesAcmeWidgets | lib/gisture/repo.rb:78-80 | `acme/` is admitted as `(acme, "")`, and its `destroy_clone!` invalidates the clone of `acme/widgets` |
| Lifecycle.FileAfterCloneIsLocal | lib/gisture/repo.rb:40-43 | after a successful `clone!` without a block, `file` gives the local handle on `File.join(clone_path, path)` |
| Lifecycle.FileAfterDestroyIsRemote | lib/gisture/repo.rb:44-47 | after `destroy_clone!`, `file` gives the fetched contents or the fetch error |
| Lifecycle.DotDotOwnerOnlyStoppedByWhitelist | lib/gisture/repo.rb:90-92 | `../etc` parses as owner `..`. It is rejected exactly when `..` is not whitelisted. If admitted, its clone directory climbs out of `tmpdir`. |

## Behaviour of the code worth knowing

- Empty owner and project. Both regular expressions use `*`
  (lib/gisture/repo.rb:4-5), so either name may be empty.
  - `acme/` is a valid repository with an empty project, and its clone
    directory is the owner's directory. Its `destroy_clone!` therefore removes
    the clones of all of that owner's repositories
    (`Lifecycle.EmptyProjectCoversOwner`).
  - `("", "x")` and `("x", "")` have the same clone directory, so `clone_path`
    is injective only on non-empty names (`Paths.ClonePathInjective`).
- The file path keeps its leading slash. Group 6 of the file regex starts
  with `/`, so `acme/widgets/scripts/run.rb` gives the path `/scripts/run.rb`
  (`Locator.FilePathKeepsSlash`). `File.join` then joins it below the clone
  directory all the same.
- No teardown when the block raises. `clone!` has no `ensure`
  (lib/gisture/repo.rb:70-73): when the block raises, the clone stays
  (`Repository.Repo.Clone`, the `Raised` case).
- Two invalid-identifier errors. `parse_repo_url` and `parse_file_url` raise
  `ArgumentError` with different messages (lib/gisture/repo.rb:19, 25); they
  are the two error cases `InvalidRepoUrl` and `InvalidFilePath`.
- Path traversal. `.` and `..` are in the identifier class, so an owner or
  project of `..` passes the parser. Only the whitelist keeps such a clone
  directory inside `tmpdir` (`Lifecycle.DotDotOwnerOnlyStoppedByWhitelist`).
  A file path may contain `..` segments, and the local handle joins them
  unchanged.

## Left out

- `git clone` (lib/gisture/repo.rb:60-61, 66): the shell command, the token in
  its URL and its exit status are not modelled. It is an opaque step that
  grafts a given tree of entries below the clone directory. A failed clone is
  the empty tree, which makes the marker write fail.
- The GitHub client (`github`, `repo`, `github_config`, lib/gisture/repo.rb:30-38, 95-97):
  a foreign library. Contents requests are a fixed table with a request log.
- The logger (lib/gisture/repo.rb:63) and `Time.now` (lib/gisture/repo.rb:68):
  output and the clock. The marker contents are a parameter, because validity
  never inspects them.
- `run!` and the execution of `ClonedFile`/`RepoFile` (lib/gisture/repo.rb:13-15, 50-52):
  not part of this model. The handles record path or contents, basename and
  strategy.
- `Gisture.configuration`: `tmpdir` and the whitelist are passed in as values.
  The OAuth token is used only by `git clone`.
- The exception message strings (lib/gisture/errors.rb): each error case
  carries the value its message names.
- Memoisation with `||=` of `@github`, `@repo` and `@clone_path`: the
  configuration does not change during a model run, so `clone_path` is a
  function of the repo's fields.
- Concurrent `clone!` of the same repository, and `instance_eval` scoping of
  the block. The block is a function from the filesystem to its outcome.
- Filesystem permissions, symbolic links, and `.`/`..` in directory names:
  entry names are compared as strings and `..` is not resolved. The
  disjointness lemma `Lifecycle.DestroyLeavesOtherClones` is therefore stated
  for plain names only (`Paths.PlainName`: non-empty, no `/`, neither `.` nor
  `..`).
- The working directory: `Paths.Segments` drops a leading `/`, so `tmp` and
  `/tmp` name the same directory here, while the operating system resolves a
  relative path against the working directory. Every path in one model run
  is taken relative to the same root.
- Locator.ParseRepoUrl: the `/i` flag is modelled for ASCII letters only.
  Case folding of non-ASCII characters is not modelled.
- Locator.ParseFileUrl: the same ASCII-only reading of `/i`.
- Repository.Repo.IsCloned: marker contents are characters, so a marker
  whose bytes are invalid in Ruby's default encoding is not modelled. For such
  a marker Ruby's `strip` raises, the bare `rescue` turns that into `false`,
  and the model reports the clone as valid.
- Repository.Strip: Ruby's exact treatment of leading NUL characters differs
  between Ruby versions. The model strips NUL at both ends, like the other
  whitespace characters.
