/** The shared /output volume as a map from paths to file contents, and the
    operations the preprocessing job performs on it: Spark's overwrite-mode
    writer, `glob.glob`, `os.path.exists`, `os.remove` and `os.rename`. */
module Files {
  import opened Sequences

  type Path = string
  type Contents = string

  /** p lies somewhere below directory dir. */
  predicate Within(p: Path, dir: Path) {
    |dir| < |p| && p[..|dir| + 1] == dir + "/"
  }

  function Child(dir: Path, name: string): (p: Path)
    ensures Within(p, dir) && p[|dir| + 1..] == name
  {
    dir + "/" + name
  }

  /** The effect of a Spark writer in mode "overwrite": whatever was at dir (a
      file, or a tree of files) is deleted, then the given entries are
      written below dir. Everything else is left as it was. */
  function ReplaceTree(fs: map<Path, Contents>, dir: Path, entries: map<string, Contents>): (r: map<Path, Contents>)
    ensures forall p :: p != dir && !Within(p, dir) ==> (p in r <==> p in fs) && (p in r ==> r[p] == fs[p])
    ensures forall n :: n in entries ==> Child(dir, n) in r && r[Child(dir, n)] == entries[n]
    ensures forall p :: p in r && (p == dir || Within(p, dir)) ==> Within(p, dir) && p[|dir| + 1..] in entries
  {
    var kept := map p | p in fs && p != dir && !Within(p, dir) :: fs[p];
    var written := map n | n in entries :: Child(dir, n) := entries[n];
    kept + written
  }

  /** A name matched by the glob pattern "part-*.csv": `*` matches any run of
      characters except '/'. */
  predicate IsPartFileName(n: string) {
    && |n| >= 9
    && n[..5] == "part-"
    && n[|n| - 4..] == ".csv"
    && forall i :: 0 <= i < |n| ==> n[i] != '/'
  }

  /** The paths `glob.glob(dir + "/part-*.csv")` returns, as a set. */
  function PartFiles(fs: map<Path, Contents>, dir: Path): set<Path> {
    set p | p in fs && Within(p, dir) && IsPartFileName(p[|dir| + 1..])
  }

  /** After an overwrite, the part files below dir are exactly the part files
      just written: none left from an earlier run can be picked up. */
  lemma PartFilesAfterReplace(fs: map<Path, Contents>, dir: Path, entries: map<string, Contents>)
    ensures PartFiles(ReplaceTree(fs, dir, entries), dir)
         == set n | n in entries && IsPartFileName(n) :: Child(dir, n)
  {
    var r := ReplaceTree(fs, dir, entries);
    forall p | p in PartFiles(r, dir)
      ensures p in set n | n in entries && IsPartFileName(n) :: Child(dir, n)
    {
      var n := p[|dir| + 1..];
      assert p == Child(dir, n);
    }
  }

  /** `os.rename(src, dst)` on POSIX: dst, if it exists, is replaced. */
  function Moved(fs: map<Path, Contents>, src: Path, dst: Path): (r: map<Path, Contents>)
    requires src in fs
    ensures dst in r && r[dst] == fs[src]
    ensures src != dst ==> src !in r
    ensures forall p :: p != src && p != dst ==> (p in r <==> p in fs) && (p in r ==> r[p] == fs[p])
  {
    (fs - {src})[dst := fs[src]]
  }

  /** The file system, with the sequence of states it has passed through. */
  class FileSystem {
    var files: map<Path, Contents>
    ghost var history: seq<map<Path, Contents>>

    ghost predicate Valid()
      reads this
    {
      |history| > 0 && history[|history| - 1] == files
    }

    constructor (initial: map<Path, Contents>)
      ensures Valid() && files == initial && history == [initial]
    {
      files := initial;
      history := [initial];
    }

    /** `os.path.exists(p)` */
    method Exists(p: Path) returns (b: bool)
      ensures b <==> p in files
    {
      b := p in files;
    }

    /** `os.remove(p)`; false is the FileNotFoundError it raises when p is absent. */
    method Remove(p: Path) returns (ok: bool)
      requires Valid()
      modifies this
      ensures Valid()
      ensures ok <==> p in old(files)
      ensures files == old(files) - {p}
      ensures history == if ok then old(history) + [files] else old(history)
    {
      ok := p in files;
      if ok {
        files := files - {p};
        history := history + [files];
      }
    }

    /** `os.rename(src, dst)`; false is the FileNotFoundError it raises when src is absent. */
    method Rename(src: Path, dst: Path) returns (ok: bool)
      requires Valid()
      modifies this
      ensures Valid()
      ensures ok <==> src in old(files)
      ensures ok ==> files == Moved(old(files), src, dst) && history == old(history) + [files]
      ensures !ok ==> files == old(files) && history == old(history)
    {
      ok := src in files;
      if ok {
        files := Moved(files, src, dst);
        history := history + [files];
      }
    }

    /** A Spark writer in mode "overwrite" producing the given files below dir. */
    method Overwrite(dir: Path, entries: map<string, Contents>)
      requires Valid()
      modifies this
      ensures Valid()
      ensures files == ReplaceTree(old(files), dir, entries)
      ensures history == old(history) + [files]
    {
      files := ReplaceTree(files, dir, entries);
      history := history + [files];
    }

    /** `glob.glob(dir + "/part-*.csv")`: every matching path once, in the
        directory's listing order, which the model leaves open. */
    method Glob(dir: Path) returns (found: seq<Path>)
      ensures Distinct(found)
      ensures forall p :: p in found <==> p in PartFiles(files, dir)
    {
      var pending := PartFiles(files, dir);
      found := [];
      while pending != {}
        invariant Distinct(found)
        invariant forall p :: p in found ==> p !in pending
        invariant forall p :: p in found || p in pending <==> p in PartFiles(files, dir)
        decreases |pending|
      {
        var p :| p in pending;
        found := found + [p];
        pending := pending - {p};
      }
    }
  }
}
