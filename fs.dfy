/** The filesystem as the skills manager sees it: a directory is a map from entry names to
    entry kinds, and a path is the sequence of its components. */
module Fs {

  /** A path as the sequence of its components; an absolute path begins with the root "/". */
  type Path = seq<string>

  /** One entry of a directory, classified by what `is_symlink`, `is_dir`, `is_file` and
      `exists` report for it. */
  datatype Entry =
    | Directory                            // a real directory
    | RegularFile                          // an ordinary file
    | Symlink(target: Path, toDir: bool)   // a link that resolves; `toDir` when what it names is a directory
    | BrokenSymlink                        // a link whose target no longer resolves

  /** The contents of one directory. */
  type Listing = map<string, Entry>

  /** `Path.exists()` follows links, so only a dangling link does not exist. */
  predicate Exists(e: Entry) { !e.BrokenSymlink? }

  predicate IsSymlink(e: Entry) { e.Symlink? || e.BrokenSymlink? }

  /** `is_dir()` follows links. */
  predicate IsDir(e: Entry) { e.Directory? || (e.Symlink? && e.toDir) }

  /** `is_file()` follows links. */
  predicate IsFile(e: Entry) { e.RegularFile? || (e.Symlink? && !e.toDir) }

  /** `dir / name` exists. */
  predicate Present(dir: Listing, name: string)
  {
    name in dir && Exists(dir[name])
  }

  predicate IsAbsolute(p: Path) { p != [] && p[0] == "/" }

  /** `a in t.parents`: `a` is a proper leading part of `t`; the empty path is ".", which is a
      parent of relative paths only. */
  predicate IsParent(a: Path, t: Path)
  {
    |a| < |t| && t[..|a|] == a && (a == [] ==> !IsAbsolute(t))
  }

  /** The ancestor test on `dir / name` does not depend on `name`: it asks whether `a` is `dir`
      or one of the parents of `dir`. */
  lemma ParentOfChild(a: Path, dir: Path, name: string)
    ensures IsParent(a, dir + [name]) <==> (a == dir && (a == [] ==> !IsAbsolute([name])))
                                            || IsParent(a, dir)
  {
    var t := dir + [name];
    if IsParent(a, t) && a != dir {
      assert t[..|dir|] == dir;
      assert dir[..|a|] == t[..|a|];
    }
    if IsParent(a, dir) {
      assert t[..|a|] == dir[..|a|];
    }
  }
}
