/**
 * Properties of the clone cache across operations: what `clone!` leaves
 * behind, what `destroy_clone!` removes, which clones one repository's
 * operations can reach, and how `file` resolves afterwards.
 */
module Lifecycle {
  import opened Errors
  import opened Locator
  import opened Paths
  import opened Disk
  import opened Remote
  import opened Repository

  /** `destroy_clone!` is idempotent and leaves `cloned?` false. */
  lemma DestroyInvalidates(t: Tree, root: Path)
    ensures RemoveSubtree(RemoveSubtree(t, root), root) == RemoveSubtree(t, root)
    ensures !Cloned(RemoveSubtree(t, root), root)
  {
    assert root <= root + [Marker];
  }

  /**
   * The marker write in `clone!` succeeds exactly when `git clone` created
   * the clone directory (or the clone directory is the filesystem root) and
   * did not create a directory named `.gisture` in it.
   */
  lemma MarkerWritable(t: Tree, root: Path, fetched: Tree, stamp: string)
    ensures WriteFile(Staged(t, root, fetched), root + [Marker], stamp).Some? <==>
      (root == [] || ([] in fetched && fetched[[]] == Dir)) && !([Marker] in fetched && fetched[[Marker]] == Dir)
  {
    var staged := Staged(t, root, fetched);
    var p := root + [Marker];
    assert p[..|p| - 1] == root;
    assert root + [] == root;
    MarkerOutsideGitDir();
  }

  lemma MarkerOutsideGitDir()
    ensures !([GitDir] <= [Marker]) && [Marker] != []
  {
    MarkerAndGitDirAreNames();
    assert [GitDir][0] == GitDir && [Marker][0] == Marker;
  }

  /**
   * After a successful `clone!` without a block: `cloned?` holds and reads
   * the stamp, nothing is left below `.git`, the clone directory holds what
   * `git clone` produced apart from `.git`, and every entry outside the clone
   * directory is as before.
   */
  lemma CloneValidates(t: Tree, root: Path, fetched: Tree, stamp: string)
    requires WriteFile(Staged(t, root, fetched), root + [Marker], stamp).Some?
    ensures var u := WriteFile(Staged(t, root, fetched), root + [Marker], stamp).value;
      Cloned(u, root) && ReadFile(u, root + [Marker]) == Some(stamp)
    ensures var u := WriteFile(Staged(t, root, fetched), root + [Marker], stamp).value;
      forall p :: root + [GitDir] <= p ==> p !in u
    ensures var u := WriteFile(Staged(t, root, fetched), root + [Marker], stamp).value;
      forall q :: q != [Marker] ==> (root + q in u <==> q in fetched && !([GitDir] <= q))
    ensures var u := WriteFile(Staged(t, root, fetched), root + [Marker], stamp).value;
      forall p :: !(root <= p) ==> (p in u <==> p in t) && (p in t ==> u[p] == t[p])
  {
    var staged := Staged(t, root, fetched);
    var u := WriteFile(staged, root + [Marker], stamp).value;
    MarkerOutsideGitDir();
    forall p | root + [GitDir] <= p ensures p !in u {
      var q := p[|root|..];
      assert p == root + q;
      assert [GitDir] <= q;
      assert p != root + [Marker] by {
        assert p[|root|] == GitDir;
        MarkerAndGitDirAreNames();
      }
    }
    forall q | q != [Marker] ensures root + q in u <==> q in fetched && !([GitDir] <= q) {
      assert (root + q)[|root|..] == q;
      assert (root + [Marker])[|root|..] == [Marker];
    }
    forall p | !(root <= p) ensures (p in u <==> p in t) && (p in t ==> u[p] == t[p]) {
      assert p != root + [Marker];
    }
  }

  /**
   * Two repositories with different plain names (not `.` or `..`, which the
   * operating system resolves) keep their clones apart:
   * `destroy_clone!` of one leaves everything below the other's clone
   * directory, and so its `cloned?`, unchanged.
   */
  lemma DestroyLeavesOtherClones(t: Tree, tmpdir: string, o1: string, p1: string, o2: string, p2: string)
    requires PlainName(o1) && PlainName(p1) && PlainName(o2) && PlainName(p2)
    requires (o1, p1) != (o2, p2)
    ensures forall q :: RootOf(tmpdir, o2, p2) <= q ==>
      (q in RemoveSubtree(t, RootOf(tmpdir, o1, p1)) <==> q in t)
    ensures Cloned(RemoveSubtree(t, RootOf(tmpdir, o1, p1)), RootOf(tmpdir, o2, p2)) == Cloned(t, RootOf(tmpdir, o2, p2))
  {
    var r1 := RootOf(tmpdir, o1, p1);
    var r2 := RootOf(tmpdir, o2, p2);
    PlainClonePath(tmpdir, o1, p1);
    PlainClonePath(tmpdir, o2, p2);
    assert |r1| == |r2|;
    assert r1 != r2 by {
      assert r1[|r1| - 2] == o1 && r2[|r2| - 2] == o2;
      assert r1[|r1| - 1] == p1 && r2[|r2| - 1] == p2;
    }
    assert r2 <= r2 + [Marker];
  }

  /**
   * The identifier `owner/` is a valid repository with an empty project, and
   * its clone directory is the owner's directory: its `destroy_clone!`
   * removes the clone of every repository of that owner.
   */
  lemma EmptyProjectCoversOwner(t: Tree, tmpdir: string, owner: string, project: string)
    requires owner != [] && NoSlash(owner) && NoSlash(project)
    ensures RootOf(tmpdir, owner, "") <= RootOf(tmpdir, owner, project)
    ensures !Cloned(RemoveSubtree(t, RootOf(tmpdir, owner, "")), RootOf(tmpdir, owner, project))
  {
    SegmentsOfName(owner);
    SegmentsOfName(project);
    SegmentsOfName("");
    var base := Segments(tmpdir) + [owner];
    assert RootOf(tmpdir, owner, "") == base;
    assert RootOf(tmpdir, owner, project) == base + Segments(project);
    assert base <= RootOf(tmpdir, owner, project) + [Marker];
  }

  /** `Repo.new("acme/")` with `acme` whitelisted, then its `destroy_clone!`, wipes `acme/widgets`'s clone. */
  lemma DestroyingAcmeSlashWipesAcmeWidgets(t: Tree, tmpdir: string, whitelisted: string -> bool)
    requires whitelisted("acme")
    ensures Admit("acme/", whitelisted) == Ok(("acme", ""))
    ensures !Cloned(RemoveSubtree(t, RootOf(tmpdir, "acme", "")), RootOf(tmpdir, "acme", "widgets"))
  {
    EmptyProjectAccepted();
    assert NoSlash("acme") && NoSlash("widgets");
    EmptyProjectCoversOwner(t, tmpdir, "acme", "widgets");
  }

  /**
   * After a successful `clone!` without a block, `file` resolves locally to
   * `File.join(clone_path, path)`, whatever the remote service holds.
   */
  lemma FileAfterCloneIsLocal(t: Tree, tmpdir: string, owner: string, project: string, fetched: Tree,
                              stamp: string, path: string, strategy: Option<string>, contents: map<Request, string>)
    requires WriteFile(Staged(t, RootOf(tmpdir, owner, project), fetched), RootOf(tmpdir, owner, project) + [Marker], stamp).Some?
    ensures var u := WriteFile(Staged(t, RootOf(tmpdir, owner, project), fetched), RootOf(tmpdir, owner, project) + [Marker], stamp).value;
      ResolveFile(tmpdir, owner, project, path, strategy, u, contents)
        == Ok(ClonedFile(Join(ClonePathOf(tmpdir, owner, project), path), owner + "/" + project, strategy))
  {
    CloneValidates(t, RootOf(tmpdir, owner, project), fetched, stamp);
  }

  /** After `destroy_clone!`, `file` asks the remote service, and returns its contents or its error. */
  lemma FileAfterDestroyIsRemote(t: Tree, tmpdir: string, owner: string, project: string,
                                 path: string, strategy: Option<string>, contents: map<Request, string>)
    ensures var r := ResolveFile(tmpdir, owner, project, path, strategy, RemoveSubtree(t, RootOf(tmpdir, owner, project)), contents);
      r == match Fetch(contents, Request(owner, project, path))
        case Ok(body) => Ok(RepoFile(body, owner + "/" + project, strategy))
        case Err(e) => Err(e)
  {
    DestroyInvalidates(t, RootOf(tmpdir, owner, project));
  }

  /**
   * An owner `..` passes the parser; only the whitelist keeps its clone
   * directory from leaving `tmpdir`.
   */
  lemma DotDotOwnerOnlyStoppedByWhitelist(whitelisted: string -> bool, tmpdir: string)
    ensures ParseRepoUrl("../etc") == Ok(("..", "etc"))
    ensures !whitelisted("..") ==> Admit("../etc", whitelisted) == Err(OwnerBlacklisted(".."))
    ensures whitelisted("..") ==> Admit("../etc", whitelisted) == Ok(("..", "etc"))
    ensures RootOf(tmpdir, "..", "etc") == Segments(tmpdir) + ["..", "etc"]
  {
    assert IsIdent("..") && IsIdent("etc");
    assert ".." + "/" + "etc" == "../etc";
    SingleSlashRepo("..", "etc");
    assert NoSlash("..") && NoSlash("etc");
    PlainClonePath(tmpdir, "..", "etc");
  }
}
