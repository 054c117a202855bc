/**
 * An abstract filesystem. Entries are keyed by the names a path string walks
 * through (see `Paths.Segments`); the root directory `[]` always exists.
 * `FileUtils.rm_rf`, `File.read` and `File.write` are the operations the
 * cache uses, and `Graft` stands for an external process (`git clone`) that
 * creates entries below a directory.
 */
module Disk {
  import opened Errors
  import opened Paths

  type Path = seq<string>

  datatype Node = Dir | File(data: string)

  type Tree = map<Path, Node>

  /** `p` names a directory: the root, or an entry that is a directory. */
  predicate DirExists(t: Tree, p: Path) {
    p == [] || (p in t && t[p] == Dir)
  }

  /** `FileUtils.rm_rf`: `root` and everything below it disappears; a missing `root` is no error. */
  function RemoveSubtree(t: Tree, root: Path): (r: Tree)
    ensures forall p :: p in r <==> p in t && !(root <= p)
    ensures forall p :: p in r ==> r[p] == t[p]
  {
    map p | p in t && !(root <= p) :: t[p]
  }

  /** The entries of `entries`, whose keys are relative, placed below `root`. */
  function Relocate(entries: Tree, root: Path): (r: Tree)
    ensures forall p :: p in entries <==> root + p in r
    ensures forall q :: q in r ==> root <= q && q[|root|..] in entries && r[q] == entries[q[|root|..]]
  {
    var r := map q | q in (set p | p in entries :: root + p) :: entries[q[|root|..]];
    assert forall p :: p in entries ==> (root + p)[|root|..] == p;
    r
  }

  /** An external process adds the entries of `entries` below `root`, replacing what was there under the same names. */
  function Graft(t: Tree, root: Path, entries: Tree): (r: Tree)
    ensures forall p :: !(root <= p) ==> (p in r <==> p in t) && (p in t ==> r[p] == t[p])
    ensures forall p :: p in entries ==> root + p in r && r[root + p] == entries[p]
  {
    t + Relocate(entries, root)
  }

  /** `File.read`: the contents of a regular file; a missing entry or a directory is a read error. */
  function ReadFile(t: Tree, p: Path): (r: Option<string>)
    ensures r.Some? <==> p in t && t[p].File?
    ensures r.Some? ==> r.value == t[p].data
  {
    if p in t && t[p].File? then Some(t[p].data) else None
  }

  /**
   * `File.write`: fails when the path names the root, its parent is not a
   * directory, or it is itself a directory; otherwise the file holds `data`
   * and nothing else changes.
   */
  function WriteFile(t: Tree, p: Path, data: string): (r: Option<Tree>)
    ensures r.Some? <==> p != [] && DirExists(t, p[..|p| - 1]) && !(p in t && t[p] == Dir)
    ensures r.Some? ==> ReadFile(r.value, p) == Some(data)
    ensures r.Some? ==> forall q :: q != p ==> (q in r.value <==> q in t) && (q in t ==> r.value[q] == t[q])
  {
    if p != [] && DirExists(t, p[..|p| - 1]) && !(p in t && t[p] == Dir) then Some(t[p := File(data)]) else None
  }

  /** The shared filesystem, changed in place by the cache operations. */
  class FileSystem {
    var tree: Tree

    constructor (initial: Tree)
      ensures tree == initial
    {
      tree := initial;
    }

    /** `FileUtils.rm_rf(path)`. */
    method RmRf(path: string)
      modifies this
      ensures tree == RemoveSubtree(old(tree), Segments(path))
    {
      tree := RemoveSubtree(tree, Segments(path));
    }

    /** `File.read(path)`; `None` is a raised read error. */
    method Read(path: string) returns (content: Option<string>)
      ensures content == ReadFile(tree, Segments(path))
    {
      content := ReadFile(tree, Segments(path));
    }

    /** `File.write(path, data)`; `false` is a raised write error, which leaves the tree as it was. */
    method Write(path: string, data: string) returns (ok: bool)
      modifies this
      ensures ok == WriteFile(old(tree), Segments(path), data).Some?
      ensures tree == if ok then WriteFile(old(tree), Segments(path), data).value else old(tree)
    {
      var w := WriteFile(tree, Segments(path), data);
      ok := w.Some?;
      if ok {
        tree := w.value;
      }
    }

    /** An external process creates `entries` below `path`. */
    method Populate(path: string, entries: Tree)
      modifies this
      ensures tree == Graft(old(tree), Segments(path), entries)
    {
      tree := Graft(tree, Segments(path), entries);
    }
  }
}
