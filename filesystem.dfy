/**
  The part of the operating system that `archive_directory` and
  `_clean_archive` work on: a tree of directories and files, and the library
  calls made on it (`os.makedirs`, `shutil.copy`, `zipfile.ZipFile` writing
  an archive, `os.remove`, `shutil.rmtree`, `os.listdir`), each with the
  error it raises. Paths are resolved absolute paths, one component per
  element; a zip archive is a file whose content is its entries.
*/
module FileSystem {
  import opened Wrappers
  import opened Seqs

  /** A resolved absolute path: `["srv", "data"]` is `/srv/data`; `[]` is `/`. */
  type Path = seq<string>

  /** What a file holds: bytes, or the entries of a zip archive keyed by their relative path. */
  datatype Content = Blob(data: seq<bv8>) | Zip(entries: map<Path, Content>)

  /** The `OSError` subclasses the calls below raise. */
  datatype OsError = FileExists | FileNotFound | NotADirectory | IsADirectory | SameFile

  /** `q` lies strictly below `p`. */
  predicate Below(p: Path, q: Path) {
    |p| < |q| && q[..|p|] == p
  }

  function Parent(p: Path): Path
    requires |p| > 0
  {
    p[..|p| - 1]
  }

  /** The last component: `os.path.basename`. */
  function Last(p: Path): string
    requires |p| > 0
  {
    p[|p| - 1]
  }

  lemma LastOfJoin(p: Path, q: Path)
    requires |q| > 0
    ensures Last(p + q) == Last(q)
  {
  }

  /** The directories `os.makedirs(p)` ensures: every non-empty prefix of `p`. */
  function Prefixes(p: Path): set<Path> {
    set i | 1 <= i <= |p| :: p[..i]
  }

  /** The entries below `root`, keyed by their path relative to `root`. */
  function Subtree<V>(m: map<Path, V>, root: Path): (r: map<Path, V>)
    ensures forall q {:trigger q in r} | q in r :: |q| > 0 && root + q in m && r[q] == m[root + q]
    ensures forall p | p in m && Below(root, p) :: p[|root|..] in r
  {
    assert forall p | Below(root, p) :: p == root + p[|root|..];
    var r := map p | p in m && Below(root, p) :: p[|root|..] := m[p];
    forall q | q in r ensures |q| > 0 && root + q in m && r[q] == m[root + q] {
      var p :| p in m && Below(root, p) && q == p[|root|..];
      assert p == root + q;
    }
    r
  }

  class Fs {
    var files: map<Path, Content>
    var dirs: set<Path>

    /** The root exists, nothing is both a file and a directory, and every parent is a directory. */
    ghost predicate Valid()
      reads this
    {
      && [] in dirs
      && files.Keys !! dirs
      && (forall p {:trigger p in files} | p in files :: |p| > 0 && Parent(p) in dirs)
      && (forall d {:trigger Parent(d)} | d in dirs && |d| > 0 :: Parent(d) in dirs)
    }

    /** `os.path.exists(p)`. */
    predicate Exists(p: Path)
      reads this
    {
      p in files || p in dirs
    }

    /** Some proper prefix of `p` is a file, so `p` cannot be reached. */
    predicate BlockedByFile(p: Path)
      reads this
    {
      exists i :: 1 <= i < |p| && p[..i] in files
    }

    /** Every proper prefix of something that exists is a directory. */
    lemma {:induction false} AncestorIsDir(p: Path, i: nat)
      requires Valid() && Exists(p) && i < |p|
      ensures p[..i] in dirs
      decreases |p| - i
    {
      var q := Parent(p);
      assert q[..i] == p[..i];
      if i < |q| {
        AncestorIsDir(q, i);
      }
    }

    /** Nothing exists below a path that does not exist. */
    lemma NothingBelowMissing(root: Path)
      requires Valid() && !Exists(root)
      ensures forall q | q in files :: !Below(root, q)
      ensures forall q | q in dirs :: !Below(root, q)
    {
      forall q | q in files ensures !Below(root, q) {
        if |root| < |q| {
          AncestorIsDir(q, |root|);
        }
      }
      forall q | q in dirs ensures !Below(root, q) {
        if |root| < |q| {
          AncestorIsDir(q, |root|);
        }
      }
    }

    /** Nothing exists below a file. */
    lemma NothingBelowFile(f: Path)
      requires Valid() && f in files
      ensures forall q | q in files :: !Below(f, q)
      ensures forall q | q in dirs :: !Below(f, q)
    {
      forall q | q in files ensures !Below(f, q) {
        if |f| < |q| {
          AncestorIsDir(q, |f|);
        }
      }
      forall q | q in dirs ensures !Below(f, q) {
        if |f| < |q| {
          AncestorIsDir(q, |f|);
        }
      }
    }

    /** Everything below `p` lies in one of the entries a listing of `p` names. */
    lemma EntriesListed(p: Path, names: seq<string>)
      requires Valid() && forall n :: n in names <==> Exists(p + [n])
      ensures forall q | q in files.Keys + dirs && Below(p, q) :: q[|p|] in names
    {
      forall q | q in files.Keys + dirs && Below(p, q) ensures q[|p|] in names {
        assert q[..|p| + 1] == p + [q[|p|]];
        if |q| == |p| + 1 {
          assert q == q[..|p| + 1];
        } else {
          AncestorIsDir(q, |p| + 1);
        }
      }
    }

    /**
      `os.makedirs(p)`: FileExistsError when `p` exists; NotADirectoryError
      when a file stands where one of its ancestors should be; otherwise
      `p` and its missing ancestors become directories.
    */
    method MakeDirs(p: Path) returns (err: Option<OsError>)
      requires Valid()
      modifies this
      ensures Valid() && files == old(files)
      ensures old(Exists(p)) ==> err == Some(FileExists)
      ensures !old(Exists(p)) && old(BlockedByFile(p)) ==> err == Some(NotADirectory)
      ensures err.None? <==> !old(Exists(p)) && !old(BlockedByFile(p))
      ensures dirs == if err.None? then old(dirs) + Prefixes(p) else old(dirs)
    {
      if Exists(p) {
        return Some(FileExists);
      }
      if exists i :: 1 <= i < |p| && p[..i] in files {
        return Some(NotADirectory);
      }
      forall i | 1 <= i <= |p| ensures p[..i] !in files {
        if i == |p| {
          assert p[..i] == p;
        }
      }
      assert p != [];
      dirs := dirs + Prefixes(p);
      forall d | d in dirs && |d| > 0 ensures Parent(d) in dirs {
        if d in Prefixes(p) {
          var i :| 1 <= i <= |p| && d == p[..i];
          assert Parent(d) == p[..i - 1];
          assert i - 1 >= 1 ==> p[..i - 1] in Prefixes(p);
        }
      }
      err := None;
    }

    /** The error `open(p, 'wb')` raises, if any. */
    function WriteError(p: Path): Option<OsError>
      reads this
    {
      if p in dirs || |p| == 0 then Some(IsADirectory)
      else if BlockedByFile(p) then Some(NotADirectory)
      else if Parent(p) !in dirs then Some(FileNotFound)
      else None
    }

    /**
      `shutil.copy(src, dst)`: into `dst/<last component of src>` when `dst`
      is a directory; the source must be an existing file and differ from
      the target, and the target must be writable.
    */
    method Copy(src: Path, dst: Path) returns (err: Option<OsError>)
      requires Valid()
      modifies this
      ensures Valid() && dirs == old(dirs)
      ensures var target := if dst in old(dirs) && |src| > 0 then dst + [src[|src| - 1]] else dst;
        && (src !in old(files) ==> err == Some(if src in old(dirs) then IsADirectory else FileNotFound))
        && (src in old(files) && target == src ==> err == Some(SameFile))
        && (src in old(files) && target != src ==> err == old(WriteError(target)))
        && files == if err.None? then old(files)[target := old(files)[src]] else old(files)
    {
      if src !in files {
        return Some(if src in dirs then IsADirectory else FileNotFound);
      }
      var target := if dst in dirs && |src| > 0 then dst + [src[|src| - 1]] else dst;
      if target == src {
        return Some(SameFile);
      }
      err := WriteError(target);
      if err.None? {
        files := files[target := files[src]];
      }
    }

    /** `zipfile.ZipFile(p, 'w')` followed by writing `entries` and closing the archive. */
    method WriteZip(p: Path, entries: map<Path, Content>) returns (err: Option<OsError>)
      requires Valid()
      modifies this
      ensures Valid() && dirs == old(dirs)
      ensures err == old(WriteError(p))
      ensures files == if err.None? then old(files)[p := Zip(entries)] else old(files)
    {
      err := WriteError(p);
      if err.None? {
        files := files[p := Zip(entries)];
      }
    }

    /** `os.remove(p)`: IsADirectoryError on a directory, FileNotFoundError when nothing is there. */
    method Remove(p: Path) returns (err: Option<OsError>)
      requires Valid()
      modifies this
      ensures Valid() && dirs == old(dirs)
      ensures err == if p in old(dirs) then Some(IsADirectory) else if p !in old(files) then Some(FileNotFound) else None
      ensures files == if err.None? then old(files) - {p} else old(files)
    {
      if p in dirs {
        return Some(IsADirectory);
      }
      if p !in files {
        return Some(FileNotFound);
      }
      files := files - {p};
      err := None;
    }

    /** `shutil.rmtree(p)`: `p` must be a directory other than the root; it goes with everything below it. */
    method RemoveTree(p: Path) returns (err: Option<OsError>)
      requires Valid() && p != []
      modifies this
      ensures Valid()
      ensures err == if p in old(dirs) then None else if p in old(files) then Some(NotADirectory) else Some(FileNotFound)
      ensures err.None? ==> files == (map q | q in old(files) && !Below(p, q) :: old(files)[q])
      ensures err.None? ==> dirs == (set d | d in old(dirs) && d != p && !Below(p, d))
      ensures err.Some? ==> files == old(files) && dirs == old(dirs)
    {
      if p !in dirs {
        return Some(if p in files then NotADirectory else FileNotFound);
      }
      files := map q | q in files && !Below(p, q) :: files[q];
      dirs := set d | d in dirs && d != p && !Below(p, d);
      err := None;
    }

    /**
      `os.listdir(p)`: the names of the entries of directory `p`, each once,
      in an order the file system chooses.
    */
    method ListDir(p: Path) returns (names: seq<string>, err: Option<OsError>)
      requires Valid()
      ensures err == if p in dirs then None else if p in files then Some(NotADirectory) else Some(FileNotFound)
      ensures err.None? ==> Distinct(names) && forall n :: n in names <==> Exists(p + [n])
      ensures err.Some? ==> names == []
    {
      names := [];
      if p !in dirs {
        return [], Some(if p in files then NotADirectory else FileNotFound);
      }
      err := None;
      var todo := set q | q in files.Keys + dirs && |q| == |p| + 1 && q[..|p|] == p;
      while todo != {}
        invariant forall q {:trigger q in todo} | q in todo :: Exists(q) && |q| == |p| + 1 && q[..|p|] == p
        invariant forall n :: Exists(p + [n]) <==> n in names || p + [n] in todo
        invariant forall n | n in names :: p + [n] !in todo
        invariant Distinct(names)
        decreases |todo|
      {
        var q :| q in todo;
        var n := q[|p|];
        assert q == p + [n];
        names := names + [n];
        todo := todo - {q};
      }
    }
  }
}
