/**
  `archive_directory` and its steps, as methods on the file system: choosing
  the files by mask, copying them into a fresh workspace beside the archives,
  zipping the workspace, removing it, pruning old archives and purging the
  input directory, with the hooks called before and after.
*/
module Archive {
  import opened Wrappers
  import opened Seqs
  import opened Dates
  import opened Naming
  import Glob
  import opened Retention
  import opened FileSystem

  // ---------------------------------------------------------------------
  // Choosing files: `for pat in file_masks: matched = fnmatch(f, pat); if matched: break`.
  // ---------------------------------------------------------------------

  /** Some mask matches the file name. */
  predicate AnyMask(masks: seq<string>, f: string) {
    exists i :: 0 <= i < |masks| && Glob.Matches(masks[i], f)
  }

  /** The file at `p` is one the masks select. */
  predicate Picked(masks: seq<string>, p: Path) {
    |p| > 0 && AnyMask(masks, Last(p))
  }

  /** The mask loop of the walk: true as soon as a mask matches; false for no masks. */
  method MatchesAnyMask(masks: seq<string>, f: string) returns (matched: bool)
    ensures matched <==> AnyMask(masks, f)
  {
    matched := false;
    var i := 0;
    while i < |masks|
      invariant 0 <= i <= |masks|
      invariant !matched
      invariant forall k | 0 <= k < i :: !Glob.Matches(masks[k], f)
    {
      matched := Glob.Matches(masks[i], f);
      if matched {
        break;
      }
      i := i + 1;
    }
  }

  /** The default mask list `['*']` selects every file. */
  lemma DefaultMaskSelectsAll(f: string)
    ensures AnyMask(["*"], f)
  {
    Glob.StarMatchesAll(f);
    assert Glob.Matches(["*"][0], f);
  }

  /** An empty mask list selects nothing. */
  lemma NoMasksSelectNothing(f: string)
    ensures !AnyMask([], f)
  {
  }

  /** The files below `inDir` whose name some mask matches. */
  function Chosen(files: map<Path, Content>, inDir: Path, masks: seq<string>): map<Path, Content> {
    map p | p in files && Below(inDir, p) && Picked(masks, p) :: files[p]
  }

  /** The chosen files keyed by their path relative to `inDir`: what the archive holds. */
  function Selection(files: map<Path, Content>, inDir: Path, masks: seq<string>): map<Path, Content> {
    Subtree(Chosen(files, inDir, masks), inDir)
  }

  /** Every entry of the archive is a chosen file, under its relative path with its content. */
  lemma SelectionSound(files: map<Path, Content>, inDir: Path, masks: seq<string>)
    ensures forall q | q in Selection(files, inDir, masks) ::
      inDir + q in files && Selection(files, inDir, masks)[q] == files[inDir + q] && Picked(masks, q)
  {
    var c := Chosen(files, inDir, masks);
    var r := Subtree(c, inDir);
    forall q | q in r ensures inDir + q in files && r[q] == files[inDir + q] && Picked(masks, q) {
      assert inDir + q in c;
      LastOfJoin(inDir, q);
    }
  }

  /** Every file below the input directory whose name a mask matches is in the archive. */
  lemma SelectionComplete(files: map<Path, Content>, inDir: Path, masks: seq<string>)
    ensures forall p | p in files && Below(inDir, p) && Picked(masks, p) :: p[|inDir|..] in Selection(files, inDir, masks)
  {
    var c := Chosen(files, inDir, masks);
    forall p | p in files && Below(inDir, p) && Picked(masks, p) ensures p[|inDir|..] in Subtree(c, inDir) {
      assert p in c;
    }
  }

  // ---------------------------------------------------------------------
  // Zipping: `_zipdir` walks the workspace and stores each file under its
  // path relative to the workspace.
  // ---------------------------------------------------------------------

  /** `_zipdir(path, zf)`: the entries written, one per file below `root`. */
  method ZipDir(fs: Fs, root: Path) returns (entries: map<Path, Content>)
    requires fs.Valid()
    ensures entries == Subtree(fs.files, root)
  {
    var todo := set p | p in fs.files && Below(root, p);
    ghost var all := todo;
    entries := map[];
    while todo != {}
      invariant todo <= all
      invariant forall q | q in entries :: root + q in all && root + q !in todo && entries[q] == fs.files[root + q]
      invariant forall p | p in all && p !in todo :: p[|root|..] in entries
      decreases |todo|
    {
      var p :| p in todo;
      assert p == root + p[|root|..];
      entries := entries[p[|root|..] := fs.files[p]];
      todo := todo - {p};
    }
    var sub := Subtree(fs.files, root);
    forall q | q in sub ensures q in entries {
      assert Below(root, root + q) && (root + q)[|root|..] == q;
    }
    forall q | q in entries ensures q in sub && entries[q] == sub[q] {
      assert Below(root, root + q) && (root + q)[|root|..] == q;
    }
  }

  // ---------------------------------------------------------------------
  // Staging: `for root, dirs, files in os.walk(in_dir): ... shutil.copy(path,
  // os.path.join(archive_workspace, <relative folder>, f))`.
  // ---------------------------------------------------------------------

  /** What holds of the tree before staging: `ws` is a fresh, empty directory away from `inDir`. */
  ghost predicate StagingStart(F: map<Path, Content>, D: set<Path>, inDir: Path, ws: Path) {
    && F.Keys !! D
    && (forall p, i | p in F && 0 <= i < |p| :: p[..i] in D)
    && ws in D
    && (forall i | 0 <= i < |ws| :: ws[..i] in D)
    && (forall q | q in F :: !Below(ws, q))
    && (forall q | q in D :: !Below(ws, q))
    && inDir != ws && !Below(inDir, ws)
  }

  /** While staging, nothing outside the workspace changes. */
  ghost predicate StagedOutside(files: map<Path, Content>, F: map<Path, Content>, ws: Path) {
    && (forall p | p in F :: p in files && files[p] == F[p])
    && (forall p | p in files && !Below(ws, p) :: p in F)
  }

  /**
    While staging, the workspace holds a copy of each picked file already
    walked (`done`), under its path relative to `inDir`, and nothing else.
  */
  ghost predicate StagedInside(files: map<Path, Content>, F: map<Path, Content>, inDir: Path, ws: Path,
                               masks: seq<string>, done: set<Path>) {
    && done <= F.Keys
    && (forall p | p in done :: Below(inDir, p))
    && (forall q {:trigger ws + q} | ws + q in files && |q| > 0 :: inDir + q in done && Picked(masks, inDir + q) && files[ws + q] == F[inDir + q])
    && (forall q | inDir + q in done && Picked(masks, inDir + q) :: ws + q in files)
  }

  /** While staging, each new directory lies in the workspace and mirrors a directory of the input tree. */
  ghost predicate StagedDirs(dirs: set<Path>, D: set<Path>, inDir: Path, ws: Path) {
    && D <= dirs
    && (forall d | d in dirs && d !in D :: Below(ws, d))
    && (forall q | ws + q in dirs && ws + q !in D :: inDir + q in D)
  }

  /** A prefix of `ws + r` at least as long as `ws` is `ws` followed by a prefix of `r`. */
  lemma JoinPrefix(ws: Path, q: Path, r: Path, i: nat)
    requires |ws| <= i <= |ws| + |r| && ws + q == (ws + r)[..i]
    ensures q == r[..i - |ws|]
  {
    assert |q| == i - |ws|;
    forall k | 0 <= k < |q| ensures q[k] == r[k] {
      assert (ws + q)[|ws| + k] == q[k];
    }
  }

  /** The input tree's path of a prefix of a relative path. */
  lemma RelativePrefix(inDir: Path, p: Path, j: nat)
    requires Below(inDir, p) && j <= |p| - |inDir|
    ensures inDir + p[|inDir|..][..j] == p[..|inDir| + j]
  {
  }

  /** Creating the missing folders of a staged path keeps the new directories inside the workspace. */
  lemma MakeDirsKeepsStaging(dirs: set<Path>, F: map<Path, Content>, D: set<Path>, inDir: Path, ws: Path, p: Path, rel: Path)
    requires StagingStart(F, D, inDir, ws) && StagedDirs(dirs, D, inDir, ws)
    requires p in F && Below(inDir, p) && rel == p[|inDir|..]
    ensures StagedDirs(dirs + Prefixes(ws + rel[..|rel| - 1]), D, inDir, ws)
  {
    var r := rel[..|rel| - 1];
    var sub := ws + r;
    forall d | d in Prefixes(sub) ensures d in D || Below(ws, d) {
      var i :| 1 <= i <= |sub| && d == sub[..i];
      if i < |ws| {
        assert d == ws[..i];
      } else if i == |ws| {
        assert d == ws;
      } else {
        assert d[..|ws|] == ws;
      }
    }
    forall q | ws + q in Prefixes(sub) ensures ws + q in D || inDir + q in D {
      var i :| 1 <= i <= |sub| && ws + q == sub[..i];
      if i == |ws| {
        assert ws + q == ws;
      } else {
        JoinPrefix(ws, q, r, i);
        assert q == rel[..i - |ws|];
        RelativePrefix(inDir, p, i - |ws|);
      }
    }
  }

  /** Copying a picked file to its staged path changes nothing outside the workspace. */
  lemma CopyKeepsOutside(files: map<Path, Content>, F: map<Path, Content>, D: set<Path>, inDir: Path, ws: Path, p: Path)
    requires StagingStart(F, D, inDir, ws) && StagedOutside(files, F, ws)
    requires p in F && Below(inDir, p)
    ensures StagedOutside(files[ws + p[|inDir|..] := F[p]], F, ws)
  {
    var t := ws + p[|inDir|..];
    assert Below(ws, t);
    forall q | q in F ensures q != t {
      assert !Below(ws, q);
    }
  }

  /** Copying a picked file to its staged path adds exactly that file to the workspace. */
  lemma CopyKeepsInside(files: map<Path, Content>, F: map<Path, Content>, inDir: Path, ws: Path,
                        masks: seq<string>, done: set<Path>, p: Path)
    requires StagedInside(files, F, inDir, ws, masks, done)
    requires p in F && Below(inDir, p) && Picked(masks, p)
    ensures StagedInside(files[ws + p[|inDir|..] := F[p]], F, inDir, ws, masks, done + {p})
  {
    var rel := p[|inDir|..];
    var files' := files[ws + rel := F[p]];
    assert p == inDir + rel;
    forall q | ws + q in files' && |q| > 0
      ensures inDir + q in done + {p} && Picked(masks, inDir + q) && files'[ws + q] == F[inDir + q]
    {
      if q != rel {
        assert ws + q != ws + rel by {
          assert (ws + q)[|ws|..] == q && (ws + rel)[|ws|..] == rel;
        }
      }
    }
  }

  /** Walking past a file the masks do not pick changes nothing in the workspace. */
  lemma SkipKeepsInside(files: map<Path, Content>, F: map<Path, Content>, inDir: Path, ws: Path,
                        masks: seq<string>, done: set<Path>, p: Path)
    requires StagedInside(files, F, inDir, ws, masks, done)
    requires p in F && Below(inDir, p) && !Picked(masks, p)
    ensures StagedInside(files, F, inDir, ws, masks, done + {p})
  {
  }

  /**
    The staged path `ws + rel` of an input file `inDir + rel` is free: no
    proper prefix of it is a file and it is not a directory. Stated over the
    few facts of the staging invariant it needs.
  */
  lemma {:induction false} PathClear(files: map<Path, Content>, dirs: set<Path>, F: map<Path, Content>, D: set<Path>,
                                     inDir: Path, ws: Path, rel: Path)
    requires F.Keys !! D && inDir + rel in F && |rel| > 0
    requires forall i | 0 <= i < |rel| :: inDir + rel[..i] in D
    requires forall i | 0 <= i <= |ws| :: ws[..i] in D
    requires forall q | q in D :: !Below(ws, q)
    requires forall q | q in files && !Below(ws, q) :: q in F
    requires forall q | ws + q in files && |q| > 0 :: inDir + q in F
    requires forall q | ws + q in dirs && ws + q !in D :: inDir + q in D
    ensures forall i | 1 <= i < |ws + rel| :: (ws + rel)[..i] !in files
    ensures ws + rel !in dirs
  {
    var t := ws + rel;
    forall i | 1 <= i < |t| ensures t[..i] !in files {
      if i <= |ws| {
        assert t[..i] == ws[..i] && ws[..i] in D;
        assert !Below(ws, t[..i]);
      } else {
        var q := rel[..i - |ws|];
        assert t[..i] == ws + q && |q| > 0;
        assert inDir + q in D;
      }
    }
    assert Below(ws, t) && t !in D;
  }

  /** The staging invariant gives what `PathClear` needs for an input file `p`. */
  lemma StagedPathClear(files: map<Path, Content>, dirs: set<Path>, F: map<Path, Content>, D: set<Path>,
                        inDir: Path, ws: Path, masks: seq<string>, done: set<Path>, p: Path)
    requires StagingStart(F, D, inDir, ws) && StagedOutside(files, F, ws)
    requires StagedInside(files, F, inDir, ws, masks, done) && StagedDirs(dirs, D, inDir, ws)
    requires p in F && Below(inDir, p)
    ensures forall i | 1 <= i < |ws + p[|inDir|..]| :: (ws + p[|inDir|..])[..i] !in files
    ensures ws + p[|inDir|..] !in dirs
  {
    var rel := p[|inDir|..];
    assert p == inDir + rel;
    forall i | 0 <= i < |rel| ensures inDir + rel[..i] in D {
      assert inDir + rel[..i] == p[..|inDir| + i];
    }
    forall i | 0 <= i <= |ws| ensures ws[..i] in D {
      if i == |ws| {
        assert ws[..i] == ws;
      }
    }
    PathClear(files, dirs, F, D, inDir, ws, rel);
  }

  /** The staged path of `rel` splits into its folder and its name. */
  lemma SplitLast(ws: Path, rel: Path)
    requires |rel| > 0
    ensures ws + rel[..|rel| - 1] + [rel[|rel| - 1]] == ws + rel
    ensures Parent(ws + rel) == ws + rel[..|rel| - 1]
  {
    assert rel[..|rel| - 1] + [rel[|rel| - 1]] == rel;
  }

  /**
    One step of the walk: a file the masks pick is copied to the same
    relative place in the workspace, creating its folder first when missing.
    Every call succeeds.
  */
  method StageOne(fs: Fs, ghost F: map<Path, Content>, ghost D: set<Path>, inDir: Path, ws: Path,
                  masks: seq<string>, ghost done: set<Path>, p: Path)
    requires fs.Valid() && StagingStart(F, D, inDir, ws)
    requires StagedOutside(fs.files, F, ws) && StagedInside(fs.files, F, inDir, ws, masks, done) && StagedDirs(fs.dirs, D, inDir, ws)
    requires p in F && Below(inDir, p)
    modifies fs
    ensures fs.Valid()
    ensures StagedOutside(fs.files, F, ws) && StagedInside(fs.files, F, inDir, ws, masks, done + {p}) && StagedDirs(fs.dirs, D, inDir, ws)
  {
    var f := Last(p);
    var matched := MatchesAnyMask(masks, f);
    if !matched {
      SkipKeepsInside(fs.files, F, inDir, ws, masks, done, p);
      return;
    }
    var rel := p[|inDir|..];
    var sub := ws + rel[..|rel| - 1];
    StagedPathClear(fs.files, fs.dirs, F, D, inDir, ws, masks, done, p);
    SplitLast(ws, rel);
    var present := fs.Exists(sub);
    if !present {
      forall i | 1 <= i < |sub| ensures sub[..i] !in fs.files {
        assert sub[..i] == (ws + rel)[..i];
      }
      MakeDirsKeepsStaging(fs.dirs, F, D, inDir, ws, p, rel);
      var e := fs.MakeDirs(sub);
      assert e.None?;
    }
    assert sub in fs.dirs by {
      if |sub| > 0 {
        assert sub == (ws + rel)[..|sub|];
        assert sub == sub[..|sub|];
      }
    }
    assert ws + rel !in fs.dirs by {
      assert |ws + rel| > |sub|;
    }
    assert !fs.BlockedByFile(ws + rel);
    assert Below(ws, ws + rel) && !Below(ws, p);
    ghost var before := fs.files;
    CopyKeepsOutside(fs.files, F, D, inDir, ws, p);
    CopyKeepsInside(fs.files, F, inDir, ws, masks, done, p);
    var e := fs.Copy(p, sub + [f]);
    assert e.None? && fs.files == before[ws + rel := F[p]];
  }

  /** Once every file below `inDir` is walked, the workspace holds exactly the selection. */
  lemma StagedIsSelection(files: map<Path, Content>, F: map<Path, Content>, inDir: Path, ws: Path, masks: seq<string>)
    requires StagedInside(files, F, inDir, ws, masks, set p | p in F && Below(inDir, p))
    ensures Subtree(files, ws) == Selection(F, inDir, masks)
  {
    var all := set p | p in F && Below(inDir, p);
    var got := Subtree(files, ws);
    var want := Selection(F, inDir, masks);
    SelectionSound(F, inDir, masks);
    SelectionComplete(F, inDir, masks);
    forall q | q in got ensures q in want && got[q] == want[q] {
      assert Below(inDir, inDir + q) && (inDir + q)[|inDir|..] == q;
    }
    forall q | q in want ensures q in got {
      assert inDir + q in all;
      assert Below(ws, ws + q) && (ws + q)[|ws|..] == q;
    }
    SameMap(got, want);
  }

  lemma SameMap<K, V>(a: map<K, V>, b: map<K, V>)
    requires forall k | k in a :: k in b && a[k] == b[k]
    requires forall k | k in b :: k in a
    ensures a == b
  {
  }

  /** Walking one more element of `todo`. */
  lemma WalkStep<T>(all: set<T>, todo: set<T>, x: T)
    requires x in todo && todo <= all
    ensures (all - todo) + {x} == all - (todo - {x})
  {
  }

  /**
    The walk over `inDir`: every file the masks pick is copied into the
    empty workspace `ws` under its path relative to `inDir`. Afterwards the
    workspace holds exactly the selection, nothing outside it has changed,
    and every new directory lies inside it.
  */
  method StageFiles(fs: Fs, inDir: Path, ws: Path, masks: seq<string>)
    requires fs.Valid() && ws in fs.dirs
    requires forall q | q in fs.files :: !Below(ws, q)
    requires forall q | q in fs.dirs :: !Below(ws, q)
    requires inDir != ws && !Below(inDir, ws)
    modifies fs
    ensures fs.Valid()
    ensures Subtree(fs.files, ws) == Selection(old(fs.files), inDir, masks)
    ensures forall p | p in old(fs.files) :: p in fs.files && fs.files[p] == old(fs.files)[p]
    ensures forall p | p in fs.files && !Below(ws, p) :: p in old(fs.files)
    ensures old(fs.dirs) <= fs.dirs && forall d | d in fs.dirs && d !in old(fs.dirs) :: Below(ws, d)
  {
    ghost var F := fs.files;
    ghost var D := fs.dirs;
    forall p, i | p in F && 0 <= i < |p| ensures p[..i] in D {
      fs.AncestorIsDir(p, i);
    }
    forall i | 0 <= i < |ws| ensures ws[..i] in D {
      fs.AncestorIsDir(ws, i);
    }
    var todo := set p | p in fs.files && Below(inDir, p);
    ghost var all := todo;
    while todo != {}
      invariant fs.Valid()
      invariant todo <= all
      invariant StagedOutside(fs.files, F, ws) && StagedInside(fs.files, F, inDir, ws, masks, all - todo) && StagedDirs(fs.dirs, D, inDir, ws)
      decreases |todo|
    {
      var p :| p in todo;
      StageOne(fs, F, D, inDir, ws, masks, all - todo, p);
      WalkStep(all, todo, p);
      todo := todo - {p};
    }
    assert all - todo == all;
    StagedIsSelection(fs.files, F, inDir, ws, masks);
  }

  // ---------------------------------------------------------------------
  // Pruning: `_clean_archive(out_dir, ttl, max_archive)` carried out on the
  // file system, against the decisions of `Retention.CleanArchive`.
  // ---------------------------------------------------------------------

  /** The names of the directories directly inside `out`. */
  function DirNames(dirs: set<Path>, out: Path): (r: set<string>)
    ensures forall n :: n in r <==> out + [n] in dirs
  {
    var r := set d | d in dirs && |d| == |out| + 1 && d[..|out|] == out :: d[|out|];
    forall n | out + [n] in dirs ensures n in r {
      var d := out + [n];
      assert d[..|out|] == out && d[|out|] == n;
    }
    forall n | n in r ensures out + [n] in dirs {
      var d :| d in dirs && |d| == |out| + 1 && d[..|out|] == out && d[|out|] == n;
      assert d == out + [n];
    }
    r
  }

  /** The files left once the entries `names` of directory `out` are removed. */
  function WithoutNames(files: map<Path, Content>, out: Path, names: seq<string>): map<Path, Content> {
    map p | p in files && !(|p| == |out| + 1 && p[..|out|] == out && p[|out|] in names) :: files[p]
  }

  /** Removing one more entry of `out` takes exactly that path away. */
  lemma WithoutOneMore(files: map<Path, Content>, out: Path, names: seq<string>, b: string)
    ensures WithoutNames(files, out, names + [b]) == WithoutNames(files, out, names) - {out + [b]}
  {
    var l := WithoutNames(files, out, names + [b]);
    var r := WithoutNames(files, out, names) - {out + [b]};
    assert (out + [b])[..|out|] == out && (out + [b])[|out|] == b;
    forall p | |p| == |out| + 1 && p[..|out|] == out ensures p == out + [p[|out|]] {
    }
    SameMap(l, r);
  }

  /** No entry removed: nothing changes. */
  lemma WithoutNothing(files: map<Path, Content>, out: Path)
    ensures WithoutNames(files, out, []) == files
  {
    SameMap(WithoutNames(files, out, []), files);
  }

  /**
    One iteration of the TTL loop, on candidate `b` of directory `out`: with
    a `ttl`, the name's date is read (a name that is not an archive name
    raises `TypeError`, a date that does not exist `ValueError`) and the
    entry is removed when it is more than `ttl` days old (`os.remove` raises
    on a directory); an entry not removed is kept with the millis of its
    full path.
  */
  method AgeOne(fs: Fs, out: Path, outText: string, b: string, ttl: Option<int>, today: Date,
                ghost F0: map<Path, Content>, removed: seq<string>, kept: seq<Kept>)
    returns (removed': seq<string>, kept': seq<Kept>, failure: Option<Failure>)
    requires fs.Valid() && ValidDate(today) && fs.files == WithoutNames(F0, out, removed)
    requires b !in removed && (out + [b] in F0 || out + [b] in fs.dirs)
    modifies fs
    ensures fs.Valid() && fs.dirs == old(fs.dirs)
    ensures TtlStep(TtlState(removed, kept, None),
                    Probe(b, TtlVerdict(b, ttl, today), ParseFilenameToMillis(GlobPath(outText, b)), out + [b] in old(fs.dirs)))
            == TtlState(removed', kept', failure)
    ensures removed' == removed || removed' == removed + [b]
    ensures fs.files == WithoutNames(F0, out, removed')
  {
    removed', kept', failure := removed, kept, None;
    ghost var isDir := out + [b] in fs.dirs;
    var gone := false;
    if ttl.Some? {
      match ParseFilenameToDate(b)
      case NoMatch =>
        failure := Some(TypeError);
      case BadDate =>
        failure := Some(ValueError);
      case Parsed(d) =>
        if DayDifference(today, d) > ttl.value {
          assert (out + [b])[..|out|] == out && (out + [b])[|out|] == b;
          assert isDir || out + [b] in fs.files;
          WithoutOneMore(F0, out, removed, b);
          var e := fs.Remove(out + [b]);
          if e.Some? {
            failure := Some(Failure.IsADirectory);
          } else {
            removed' := removed + [b];
          }
          gone := true;
        }
    }
    if failure.None? && !gone {
      kept' := kept + [Kept(b, ParseFilenameToMillis(GlobPath(outText, b)))];
    }
  }

  /**
    The TTL loop of `_clean_archive` over the candidates `cands` of directory
    `out`, in order, until the first exception. Its outcome is
    `Retention.TtlPass` of the candidates' probes.
  */
  method PruneByAge(fs: Fs, out: Path, outText: string, cands: seq<string>, ttl: Option<int>, today: Date)
    returns (removed: seq<string>, kept: seq<Kept>, failure: Option<Failure>)
    requires fs.Valid() && ValidDate(today) && Distinct(cands)
    requires forall b | b in cands :: out + [b] in fs.files || out + [b] in fs.dirs
    modifies fs
    ensures fs.Valid() && fs.dirs == old(fs.dirs)
    ensures TtlPass(Probes(cands, outText, DirNames(old(fs.dirs), out), ttl, today)) == TtlState(removed, kept, failure)
    ensures fs.files == WithoutNames(old(fs.files), out, removed)
  {
    ghost var F0, D0 := fs.files, fs.dirs;
    ghost var ps := Probes(cands, outText, DirNames(D0, out), ttl, today);
    removed, kept, failure := [], [], None;
    WithoutNothing(F0, out);
    var i := 0;
    while i < |cands| && failure.None?
      invariant 0 <= i <= |cands|
      invariant fs.Valid() && fs.dirs == D0
      invariant TtlPass(ps[..i]) == TtlState(removed, kept, failure)
      invariant fs.files == WithoutNames(F0, out, removed)
      invariant forall k | i <= k < |cands| :: cands[k] !in removed
    {
      TtlPassSnoc(ps, i);
      assert ps[i] == Probe(cands[i], TtlVerdict(cands[i], ttl, today),
                            ParseFilenameToMillis(GlobPath(outText, cands[i])), out + [cands[i]] in D0);
      assert out + [cands[i]] in F0 || out + [cands[i]] in D0;
      removed, kept, failure := AgeOne(fs, out, outText, cands[i], ttl, today, F0, removed, kept);
      i := i + 1;
    }
    if failure.Some? {
      TtlPassAfterFailure(ps, i);
    } else {
      assert ps[..i] == ps;
    }
  }

  /** `os.remove` of entry `v` of directory `out`, which raises on a directory. */
  method RemoveOne(fs: Fs, out: Path, v: string, ghost F0: map<Path, Content>, ghost removed: seq<string>)
    returns (ghost removed': seq<string>, failure: Option<Failure>)
    requires fs.Valid() && fs.files == WithoutNames(F0, out, removed)
    requires v !in removed && (out + [v] in F0 || out + [v] in fs.dirs)
    modifies fs
    ensures fs.Valid() && fs.dirs == old(fs.dirs)
    ensures failure == if out + [v] in old(fs.dirs) then Some(Failure.IsADirectory) else None
    ensures removed' == if failure.None? then removed + [v] else removed
    ensures fs.files == WithoutNames(F0, out, removed')
  {
    assert (out + [v])[..|out|] == out && (out + [v])[|out|] == v;
    WithoutOneMore(F0, out, removed, v);
    var e := fs.Remove(out + [v]);
    if e.Some? {
      failure := Some(Failure.IsADirectory);
      removed' := removed;
    } else {
      failure := None;
      removed' := removed + [v];
    }
  }

  /**
    The removal loop of the count pass: `os.remove` of each victim in turn,
    stopping at the first directory. Its outcome is `Retention.RemoveEach`.
  */
  method RemoveVictims(fs: Fs, out: Path, victims: seq<string>, ghost F0: map<Path, Content>, ghost removed: seq<string>)
    returns (gone: seq<string>, failure: Option<Failure>)
    requires fs.Valid() && Distinct(victims) && fs.files == WithoutNames(F0, out, removed)
    requires forall v | v in victims :: v !in removed && (out + [v] in F0 || out + [v] in fs.dirs)
    modifies fs
    ensures fs.Valid() && fs.dirs == old(fs.dirs)
    ensures RemoveEach(victims, DirNames(old(fs.dirs), out)) == RemoveState(gone, failure)
    ensures fs.files == WithoutNames(F0, out, removed + gone)
  {
    ghost var D0 := fs.dirs;
    ghost var dirNames := DirNames(D0, out);
    gone, failure := [], None;
    ghost var acc := removed;
    var j := 0;
    while j < |victims| && failure.None?
      invariant 0 <= j <= |victims|
      invariant fs.Valid() && fs.dirs == D0
      invariant RemoveEach(victims[..j], dirNames) == RemoveState(gone, failure)
      invariant acc == removed + gone && fs.files == WithoutNames(F0, out, acc)
      invariant forall k | j <= k < |victims| :: victims[k] !in acc
    {
      RemoveEachSnoc(victims, dirNames, j);
      ghost var acc';
      acc', failure := RemoveOne(fs, out, victims[j], F0, acc);
      if failure.None? {
        gone := gone + [victims[j]];
      }
      acc := acc';
      j := j + 1;
    }
    if failure.Some? {
      RemoveEachAfterFailure(victims, dirNames, j);
    } else {
      assert victims[..j] == victims;
    }
  }

  /**
    `_clean_archive(out_dir, ttl, max_archive)` on directory `out`, whose
    text is `outText`, on the date `today`. The TTL loop removes the
    candidates older than `ttl` days, then the count loop removes the kept
    ones beyond the `max_archive` newest. `listing` is the order in which the
    file system lists the directory; the run removes what
    `Retention.CleanArchive` decides for that listing and raises what it
    raises.
  */
  method CleanArchive(fs: Fs, out: Path, outText: string, ttl: Option<int>, maxArchive: Option<int>, today: Date)
    returns (listing: seq<string>, failure: Option<Failure>)
    requires fs.Valid() && ValidDate(today)
    modifies fs
    ensures fs.Valid() && fs.dirs == old(fs.dirs)
    ensures out in old(fs.dirs) ==> Distinct(listing) && forall n :: n in listing <==> old(fs.Exists(out + [n]))
    ensures out !in old(fs.dirs) ==> listing == []
    ensures var o := Retention.CleanArchive(listing, outText, DirNames(old(fs.dirs), out), ttl, maxArchive, today);
      failure == o.failure && fs.files == WithoutNames(old(fs.files), out, o.removed)
  {
    ghost var F0, D0 := fs.files, fs.dirs;
    var err;
    listing, err := fs.ListDir(out);
    var cands := Candidates(listing);
    CandidatesDistinct(listing);
    ghost var ps := Probes(cands, outText, DirNames(D0, out), ttl, today);
    var removed, kept;
    removed, kept, failure := PruneByAge(fs, out, outText, cands, ttl, today);
    if failure.Some? {
      return;
    }
    VictimsAreFreshCandidates(cands, outText, DirNames(D0, out), ttl, maxArchive, today);
    var cv := CountVictims(kept, maxArchive);
    if cv.Err? {
      failure := Some(cv.error);
      return;
    }
    var victims := cv.value;
    var gone;
    gone, failure := RemoveVictims(fs, out, victims, F0, removed);
  }

  // ---------------------------------------------------------------------
  // Purging: `for f in os.listdir(in_dir): ... os.remove(path) ... shutil.rmtree(path)`.
  // ---------------------------------------------------------------------

  /** The entry of `inDir` that `q` lies in or is, when it lies below `inDir`, is one of `names`. */
  predicate UnderNames(inDir: Path, q: Path, names: seq<string>) {
    Below(inDir, q) && q[|inDir|] in names
  }

  /** The files left once the entries `names` of `inDir` are gone with everything below them. */
  function PurgedFiles(files: map<Path, Content>, inDir: Path, names: seq<string>): map<Path, Content> {
    map q | q in files && !UnderNames(inDir, q, names) :: files[q]
  }

  /** The directories left once the entries `names` of `inDir` are gone with everything below them. */
  function PurgedDirs(dirs: set<Path>, inDir: Path, names: seq<string>): set<Path> {
    set d | d in dirs && !UnderNames(inDir, d, names)
  }

  /** Lying under entry `n` of `inDir` is being that entry or lying below it. */
  lemma UnderOneName(inDir: Path, q: Path, n: string)
    ensures UnderNames(inDir, q, [n]) <==> q == inDir + [n] || Below(inDir + [n], q)
  {
    if UnderNames(inDir, q, [n]) {
      if |q| > |inDir| + 1 {
        assert q[..|inDir| + 1] == q[..|inDir|] + [q[|inDir|]];
      } else {
        assert q == q[..|inDir|] + [q[|inDir|]];
      }
    }
    if q == inDir + [n] || Below(inDir + [n], q) {
      assert q[..|inDir| + 1] == inDir + [n];
      assert q[..|inDir|] == (inDir + [n])[..|inDir|];
    }
  }

  /** Purging one more entry `n` takes away that entry and everything below it. */
  lemma PurgeStep(files: map<Path, Content>, dirs: set<Path>, inDir: Path, names: seq<string>, n: string)
    ensures PurgedFiles(files, inDir, names + [n]) ==
      map q | q in PurgedFiles(files, inDir, names) && q != inDir + [n] && !Below(inDir + [n], q) :: files[q]
    ensures PurgedDirs(dirs, inDir, names + [n]) ==
      set d | d in PurgedDirs(dirs, inDir, names) && d != inDir + [n] && !Below(inDir + [n], d)
  {
    forall q | true ensures UnderNames(inDir, q, names + [n]) <==> UnderNames(inDir, q, names) || q == inDir + [n] || Below(inDir + [n], q) {
      UnderOneName(inDir, q, n);
    }
    var l := PurgedFiles(files, inDir, names + [n]);
    var r := map q | q in PurgedFiles(files, inDir, names) && q != inDir + [n] && !Below(inDir + [n], q) :: files[q];
    SameMap(l, r);
  }

  /** Purging every entry of `inDir` takes away everything below it. */
  lemma PurgeAll(files: map<Path, Content>, dirs: set<Path>, inDir: Path, names: seq<string>)
    requires forall q | q in files.Keys + dirs && Below(inDir, q) :: q[|inDir|] in names
    ensures PurgedFiles(files, inDir, names) == map q | q in files && !Below(inDir, q) :: files[q]
    ensures PurgedDirs(dirs, inDir, names) == set d | d in dirs && !Below(inDir, d)
  {
    SameMap(PurgedFiles(files, inDir, names), map q | q in files && !Below(inDir, q) :: files[q]);
  }

  /** The files left once everything below `inDir` is gone: what a completed purge leaves. */
  function Outside(files: map<Path, Content>, inDir: Path): map<Path, Content> {
    map q | q in files && !Below(inDir, q) :: files[q]
  }

  /** The directories left once everything below `inDir` is gone. */
  function OutsideDirs(dirs: set<Path>, inDir: Path): set<Path> {
    set d | d in dirs && !Below(inDir, d)
  }

  /**
    One entry of the purge: `if os.path.isfile(path): os.remove(path)`, then
    `if os.path.isdir(path): shutil.rmtree(path)`. The entry goes, with
    everything below it; a missing entry changes nothing.
  */
  method PurgeOne(fs: Fs, path: Path)
    requires fs.Valid() && |path| > 0
    modifies fs
    ensures fs.Valid()
    ensures fs.files == map q | q in old(fs.files) && q != path && !Below(path, q) :: old(fs.files)[q]
    ensures fs.dirs == set d | d in old(fs.dirs) && d != path && !Below(path, d)
  {
    ghost var F0, D0 := fs.files, fs.dirs;
    if path in fs.files {
      fs.NothingBelowFile(path);
      var e := fs.Remove(path);
      SameMap(fs.files, map q | q in F0 && q != path && !Below(path, q) :: F0[q]);
    } else if path !in fs.dirs {
      fs.NothingBelowMissing(path);
      SameMap(fs.files, map q | q in F0 && q != path && !Below(path, q) :: F0[q]);
    }
    if path in fs.dirs {
      var e := fs.RemoveTree(path);
      SameMap(fs.files, map q | q in F0 && q != path && !Below(path, q) :: F0[q]);
    }
  }

  /**
    The purge of `in_dir`: each entry `os.listdir` names is removed, a file
    with `os.remove` and a directory with everything below it by
    `shutil.rmtree`, whatever the masks. `os.listdir` raises when `inDir` is
    not a directory.
  */
  method Purge(fs: Fs, inDir: Path) returns (err: Option<OsError>)
    requires fs.Valid()
    modifies fs
    ensures fs.Valid()
    ensures err == if inDir in old(fs.dirs) then None else if inDir in old(fs.files) then Some(NotADirectory) else Some(FileNotFound)
    ensures err.None? ==> fs.files == Outside(old(fs.files), inDir) && fs.dirs == OutsideDirs(old(fs.dirs), inDir)
    ensures err.Some? ==> fs.files == old(fs.files) && fs.dirs == old(fs.dirs)
  {
    ghost var F0, D0 := fs.files, fs.dirs;
    var names;
    names, err := fs.ListDir(inDir);
    if err.Some? {
      return;
    }
    fs.EntriesListed(inDir, names);
    SameMap(PurgedFiles(F0, inDir, []), F0);
    assert PurgedDirs(D0, inDir, []) == D0;
    var i := 0;
    while i < |names|
      invariant 0 <= i <= |names|
      invariant fs.Valid()
      invariant fs.files == PurgedFiles(F0, inDir, names[..i])
      invariant fs.dirs == PurgedDirs(D0, inDir, names[..i])
    {
      var path := inDir + [names[i]];
      PurgeStep(F0, D0, inDir, names[..i], names[i]);
      assert names[..i + 1] == names[..i] + [names[i]];
      PurgeOne(fs, path);
      i := i + 1;
    }
    assert names[..i] == names;
    PurgeAll(F0, D0, inDir, names);
  }

  // ---------------------------------------------------------------------
  // The archive itself: workspace, staging, zip, workspace removal.
  // ---------------------------------------------------------------------

  /** Every prefix of `p` other than `p` is a prefix of `out` when `p` is `out` plus one component. */
  lemma PrefixesOfChild(out: Path, x: string)
    ensures forall d | d in Prefixes(out + [x]) :: d == out + [x] || d == out || (|d| > 0 && d == out[..|d|])
  {
    forall d | d in Prefixes(out + [x]) ensures d == out + [x] || d == out || (|d| > 0 && d == out[..|d|]) {
      var i :| 1 <= i <= |out| + 1 && d == (out + [x])[..i];
      if i <= |out| {
        assert d == out[..i];
      }
    }
  }

  /** A path below `out + [x]` is below `out`, so whatever lies below neither stays apart from it. */
  lemma BelowChild(p: Path, out: Path, x: string)
    requires Below(p, out + [x])
    ensures p == out || Below(p, out)
  {
    if |p| < |out| {
      assert out[..|p|] == (out + [x])[..|p|];
    } else {
      assert p == (out + [x])[..|out|] == out;
    }
  }

  /** Every proper prefix of a child of a directory is a directory. */
  lemma ChildAncestors(fs: Fs, out: Path, x: string)
    requires fs.Valid() && out in fs.dirs
    ensures forall i | 1 <= i < |out + [x]| :: (out + [x])[..i] in fs.dirs
  {
    forall i | 1 <= i < |out + [x]| ensures (out + [x])[..i] in fs.dirs {
      assert (out + [x])[..i] == out[..i];
      if i < |out| {
        fs.AncestorIsDir(out, i);
      } else {
        assert out[..i] == out;
      }
    }
  }

  /**
    `os.makedirs(archive_workspace)` for the workspace `out + [stem]` inside
    the existing directory `out`: it raises FileExistsError when the name is
    taken, and otherwise adds one empty directory.
  */
  method MakeWorkspace(fs: Fs, out: Path, stem: string) returns (err: Option<OsError>)
    requires fs.Valid() && out in fs.dirs
    modifies fs
    ensures fs.Valid() && fs.files == old(fs.files)
    ensures err.Some? <==> old(fs.Exists(out + [stem]))
    ensures err.Some? ==> err == Some(FileExists) && fs.dirs == old(fs.dirs)
    ensures err.None? ==> fs.dirs == old(fs.dirs) + {out + [stem]}
    ensures err.None? ==> forall q | q in fs.files.Keys + fs.dirs :: !Below(out + [stem], q)
  {
    var ws := out + [stem];
    ghost var D0 := fs.dirs;
    if !fs.Exists(ws) {
      fs.NothingBelowMissing(ws);
    }
    ChildAncestors(fs, out, stem);
    err := fs.MakeDirs(ws);
    if err.None? {
      assert ws[..|ws|] == ws;
      assert Prefixes(ws) <= D0 + {ws};
    }
  }

  /** Removing the workspace tree leaves the files as they were before it, plus the archive. */
  lemma WorkspaceGone(F0: map<Path, Content>, F3: map<Path, Content>, ws: Path, zip: Path, z: Content)
    requires forall q | q in F0 :: !Below(ws, q)
    requires !Below(ws, zip) && zip in F3 && F3[zip] == z
    requires forall p | p in F0 && p != zip :: p in F3 && F3[p] == F0[p]
    requires forall p | p in F3 && !Below(ws, p) && p != zip :: p in F0
    ensures (map q | q in F3 && !Below(ws, q) :: F3[q]) == F0[zip := z]
  {
    SameMap(map q | q in F3 && !Below(ws, q) :: F3[q], F0[zip := z]);
  }

  /** Removing the workspace tree leaves the directories as they were before it. */
  lemma WorkspaceDirsGone(D0: set<Path>, D1: set<Path>, D3: set<Path>, ws: Path)
    requires ws !in D0 && D1 == D0 + {ws} && forall q | q in D1 :: !Below(ws, q)
    requires D1 <= D3 && forall d | d in D3 && d !in D1 :: Below(ws, d)
    ensures (set d | d in D3 && d != ws && !Below(ws, d)) == D0
  {
  }

  /**
    `os.makedirs(archive_workspace)`, the walk that stages the picked files,
    `_zipdir` into `archive_file`, and `shutil.rmtree(archive_workspace)`,
    for a workspace named `stem` inside the existing directory `out`. On
    success the one change is the new archive beside the others, holding the
    selection; `os.makedirs` raises when the workspace already exists, and
    writing the archive raises when a directory has its name.
  */
  method WriteArchive(fs: Fs, inDir: Path, out: Path, stem: string, masks: seq<string>)
    returns (entries: map<Path, Content>, err: Option<OsError>)
    requires fs.Valid() && out in fs.dirs && fs.Exists(inDir)
    requires inDir != out && !Below(inDir, out)
    modifies fs
    ensures fs.Valid()
    ensures old(fs.Exists(out + [stem])) ==> err == Some(FileExists) && fs.files == old(fs.files) && fs.dirs == old(fs.dirs)
    ensures !old(fs.Exists(out + [stem])) && out + [stem + ZipSuffix] in old(fs.dirs) ==> err == Some(OsError.IsADirectory)
    ensures err.None? <==> !old(fs.Exists(out + [stem])) && out + [stem + ZipSuffix] !in old(fs.dirs)
    ensures err.None? ==> entries == Selection(old(fs.files), inDir, masks)
    ensures err.None? ==> fs.files == old(fs.files)[out + [stem + ZipSuffix] := Zip(entries)] && fs.dirs == old(fs.dirs)
    ensures forall p | p in old(fs.files) && p != out + [stem + ZipSuffix] :: p in fs.files && fs.files[p] == old(fs.files)[p]
  {
    ghost var F0, D0 := fs.files, fs.dirs;
    var ws := out + [stem];
    var zip := out + [stem + ZipSuffix];
    entries := map[];
    err := MakeWorkspace(fs, out, stem);
    if err.Some? {
      return;
    }
    ghost var D1 := fs.dirs;
    assert inDir != ws;
    if Below(inDir, ws) {
      BelowChild(inDir, out, stem);
    }
    StageFiles(fs, inDir, ws, masks);
    entries := ZipDir(fs, ws);
    assert zip != ws by {
      assert zip[|out|] == stem + ZipSuffix && ws[|out|] == stem;
    }
    ChildAncestors(fs, out, stem + ZipSuffix);
    err := fs.WriteZip(zip, entries);
    if err.Some? {
      return;
    }
    ghost var F3, D3 := fs.files, fs.dirs;
    var e := fs.RemoveTree(ws);
    WorkspaceGone(F0, F3, ws, zip, Zip(entries));
    WorkspaceDirsGone(D0, D1, D3, ws);
  }

  // ---------------------------------------------------------------------
  // `archive_directory`.
  // ---------------------------------------------------------------------

  /** The `ValueError`s `archive_directory` raises about its directories. */
  datatype BadDirs = DirIsNone | OutUnderIn | SameDir | InMissing

  /** The exception that ends a run of `archive_directory`. */
  datatype RunError = Invalid(why: BadDirs) | Os(error: OsError) | Pruning(failure: Failure)

  /** How a run of `archive_directory` ends: the archive path it returns, or what it raises. */
  datatype Run = Archived(path: string) | Raised(error: RunError)

  /** One call of a hook with the arguments it is given. */
  datatype Hook = PreExec(args: seq<string>) | PostExec(args: seq<string>)

  /**
    `_clean_archive(out_dir, ttl, max_archive)` and then, when `purge` is set,
    the purge of the input directory. `listing` is the order in which the
    file system lists `out`. The pruner removes what `Retention.CleanArchive`
    decides for that listing and raises what it raises; the purge then
    removes everything below `inDir`, or raises when `inDir` is no longer a
    directory.
  */
  method PruneAndPurge(fs: Fs, inDir: Path, out: Path, outText: string, ttl: Option<int>, maxArchive: Option<int>,
                       purge: bool, today: Date) returns (listing: seq<string>, err: Option<RunError>)
    requires fs.Valid() && ValidDate(today)
    modifies fs
    ensures fs.Valid() && (err.Some? ==> !err.value.Invalid?)
    ensures out in old(fs.dirs) ==> Distinct(listing) && forall n :: n in listing <==> old(fs.Exists(out + [n]))
    ensures var o := Retention.CleanArchive(listing, outText, DirNames(old(fs.dirs), out), ttl, maxArchive, today);
      var pruned := WithoutNames(old(fs.files), out, o.removed);
      && (o.failure.Some? ==> err == Some(Pruning(o.failure.value)) && fs.files == pruned && fs.dirs == old(fs.dirs))
      && (o.failure.None? && !purge ==> err.None? && fs.files == pruned && fs.dirs == old(fs.dirs))
      && (o.failure.None? && purge && inDir in old(fs.dirs) ==>
            err.None? && fs.files == Outside(pruned, inDir) && fs.dirs == OutsideDirs(old(fs.dirs), inDir))
      && (o.failure.None? && purge && inDir !in old(fs.dirs) ==>
            err == Some(Os(if inDir in pruned then NotADirectory else FileNotFound)) && fs.files == pruned && fs.dirs == old(fs.dirs))
    ensures forall p | p in fs.files :: p in old(fs.files) && fs.files[p] == old(fs.files)[p]
    ensures err.None? ==> forall p | p in old(fs.files) && !Below(inDir, p) && !(|p| == |out| + 1 && p[..|out|] == out) :: p in fs.files
    ensures fs.dirs <= old(fs.dirs)
    ensures err.None? ==> forall d | d in old(fs.dirs) && !Below(inDir, d) :: d in fs.dirs
    ensures err.None? && purge ==> forall q | q in fs.files.Keys + fs.dirs :: !Below(inDir, q)
    ensures err.None? && ttl.None? && maxArchive.None? ==>
      forall p | p in old(fs.files) && !(purge && Below(inDir, p)) :: p in fs.files
  {
    ghost var D0 := fs.dirs;
    var f;
    listing, f := CleanArchive(fs, out, outText, ttl, maxArchive, today);
    if f.Some? {
      return listing, Some(Pruning(f.value));
    }
    if ttl.None? && maxArchive.None? {
      NoLimitsRemoveNothing(listing, outText, DirNames(D0, out), today);
    }
    if purge {
      var e := Purge(fs, inDir);
      if e.Some? {
        return listing, Some(Os(e.value));
      }
    }
    err := None;
  }

  /** The directories `os.makedirs(out_dir)` leaves when the output directory is missing. */
  function OutDirs(dirs: set<Path>, out: Path): set<Path> {
    if out in dirs then dirs else dirs + Prefixes(out)
  }

  /** Directories made along the way to `out` are no entries of `out`. */
  lemma DirNamesWithPrefixes(dirs: set<Path>, out: Path)
    ensures DirNames(OutDirs(dirs, out), out) == DirNames(dirs, out)
    ensures forall n :: out + [n] in OutDirs(dirs, out) <==> out + [n] in dirs
  {
    assert forall p | p in Prefixes(out) :: |p| <= |out|;
  }

  /**
    Writing the archive into the existing output directory `out`, then
    pruning and purging. The pruner lists `out` with the new archive in it,
    as `listing`, and removes what `Retention.CleanArchive` decides for that
    listing.
  */
  method PackAndPrune(fs: Fs, inDir: Path, out: Path, outText: string, stem: string,
                      ttl: Option<int>, maxArchive: Option<int>, masks: seq<string>, purge: bool, today: Date)
    returns (entries: map<Path, Content>, listing: seq<string>, err: Option<RunError>)
    requires fs.Valid() && ValidDate(today) && out in fs.dirs && fs.Exists(inDir)
    requires inDir != out && !Below(inDir, out)
    modifies fs
    ensures fs.Valid() && (err.Some? ==> !err.value.Invalid?)
    ensures old(fs.Exists(out + [stem])) ==> err == Some(Os(FileExists)) && fs.files == old(fs.files) && fs.dirs == old(fs.dirs)
    ensures err.None? ==> entries == Selection(old(fs.files), inDir, masks)
    ensures err.None? || err.value.Pruning? ==>
      && Distinct(listing) && stem + ZipSuffix in listing
      && forall n :: n in listing <==> n == stem + ZipSuffix || old(fs.Exists(out + [n]))
    ensures var o := Retention.CleanArchive(listing, outText, DirNames(old(fs.dirs), out), ttl, maxArchive, today);
      var pruned := WithoutNames(old(fs.files)[out + [stem + ZipSuffix] := Zip(entries)], out, o.removed);
      && (err.None? ==>
            && o.failure.None?
            && fs.files == (if purge then Outside(pruned, inDir) else pruned)
            && fs.dirs == (if purge then OutsideDirs(old(fs.dirs), inDir) else old(fs.dirs)))
      && (err.Some? && err.value.Pruning? ==> o.failure == Some(err.value.failure) && fs.files == pruned && fs.dirs == old(fs.dirs))
    ensures err.None? ==> forall p | p in fs.files ::
      (p in old(fs.files) && fs.files[p] == old(fs.files)[p]) || (p == out + [stem + ZipSuffix] && fs.files[p] == Zip(entries))
    ensures err.None? ==> forall p | p in old(fs.files) && !Below(inDir, p) && !(|p| == |out| + 1 && p[..|out|] == out) :: p in fs.files
    ensures err.None? ==> fs.dirs <= old(fs.dirs)
    ensures err.None? ==> forall d | d in old(fs.dirs) && !Below(inDir, d) :: d in fs.dirs
    ensures err.None? && purge ==> forall q | q in fs.files.Keys + fs.dirs :: !Below(inDir, q)
    ensures err.None? && ttl.None? && maxArchive.None? ==>
      out + [stem + ZipSuffix] in fs.files && fs.files[out + [stem + ZipSuffix]] == Zip(entries)
  {
    var zip := out + [stem + ZipSuffix];
    listing := [];
    var e;
    entries, e := WriteArchive(fs, inDir, out, stem, masks);
    if e.Some? {
      return entries, listing, Some(Os(e.value));
    }
    if Below(inDir, zip) {
      BelowChild(inDir, out, stem + ZipSuffix);
    }
    listing, err := PruneAndPurge(fs, inDir, out, outText, ttl, maxArchive, purge, today);
  }

  /**
    With no `ttl` and a `max_archive` of 0, a pruner that raised nothing has
    removed the archive it found in its listing, and a purge does not bring
    it back.
  */
  lemma ZeroMaxDropsArchive(files: map<Path, Content>, out: Path, inDir: Path, listing: seq<string>, base: string,
                            outText: string, dirs: set<string>, today: Date)
    requires ValidDate(today) && base in listing && IsCandidate(base)
    requires Retention.CleanArchive(listing, outText, dirs, None, Some(0), today).failure.None?
    ensures var pruned := WithoutNames(files, out, Retention.CleanArchive(listing, outText, dirs, None, Some(0), today).removed);
      out + [base] !in pruned && out + [base] !in Outside(pruned, inDir)
  {
    ZeroMaxRemovesAll(listing, outText, dirs, today);
    assert (out + [base])[..|out|] == out && (out + [base])[|out|] == base;
  }

  /**
    The part of `archive_directory` that runs once the input directory is
    known to exist: `os.makedirs(out_dir)` when the output directory is
    missing, then the archive, the pruner and the purge.
  */
  method ArchiveInput(fs: Fs, inDir: Path, out: Path, outText: string, stem: string,
                      ttl: Option<int>, maxArchive: Option<int>, masks: seq<string>, purge: bool, today: Date)
    returns (entries: map<Path, Content>, listing: seq<string>, err: Option<RunError>)
    requires fs.Valid() && ValidDate(today) && fs.Exists(inDir)
    requires inDir != out && !Below(inDir, out)
    modifies fs
    ensures fs.Valid() && (err.Some? ==> !err.value.Invalid?)
    ensures old(!fs.Exists(out) && fs.BlockedByFile(out)) || old(out in fs.files) ==>
      err == Some(Os(NotADirectory)) && fs.files == old(fs.files) && fs.dirs == old(fs.dirs)
    ensures old(out in fs.dirs && fs.Exists(out + [stem])) ==>
      err == Some(Os(FileExists)) && fs.files == old(fs.files) && fs.dirs == old(fs.dirs)
    ensures err.None? ==> entries == Selection(old(fs.files), inDir, masks)
    ensures err.None? || err.value.Pruning? ==>
      && Distinct(listing) && stem + ZipSuffix in listing
      && forall n :: n in listing <==> n == stem + ZipSuffix || old(fs.Exists(out + [n]))
    ensures var o := Retention.CleanArchive(listing, outText, DirNames(old(fs.dirs), out), ttl, maxArchive, today);
      var pruned := WithoutNames(old(fs.files)[out + [stem + ZipSuffix] := Zip(entries)], out, o.removed);
      var made := OutDirs(old(fs.dirs), out);
      && (err.None? ==>
            && o.failure.None?
            && fs.files == (if purge then Outside(pruned, inDir) else pruned)
            && fs.dirs == (if purge then OutsideDirs(made, inDir) else made))
      && (err.Some? && err.value.Pruning? ==> o.failure == Some(err.value.failure) && fs.files == pruned && fs.dirs == made)
    ensures err.None? ==> forall p | p in fs.files ::
      (p in old(fs.files) && fs.files[p] == old(fs.files)[p]) || (p == out + [stem + ZipSuffix] && fs.files[p] == Zip(entries))
    ensures err.None? ==> forall p | p in old(fs.files) && !Below(inDir, p) && !(|p| == |out| + 1 && p[..|out|] == out) :: p in fs.files
    ensures err.None? ==> forall d | d in fs.dirs :: d in old(fs.dirs) || d in Prefixes(out)
    ensures err.None? ==> forall d | d in old(fs.dirs) && !Below(inDir, d) :: d in fs.dirs
    ensures err.None? && purge ==> forall q | q in fs.files.Keys + fs.dirs :: !Below(inDir, q)
    ensures err.None? && ttl.None? && maxArchive.None? ==>
      out + [stem + ZipSuffix] in fs.files && fs.files[out + [stem + ZipSuffix]] == Zip(entries)
    ensures err.None? && ttl.None? && maxArchive == Some(0) && IsCandidate(stem + ZipSuffix) ==>
      out + [stem + ZipSuffix] !in fs.files
  {
    ghost var D0 := fs.dirs;
    entries, listing := map[], [];
    if !fs.Exists(out) {
      fs.NothingBelowMissing(out);
      var e := fs.MakeDirs(out);
      if e.Some? {
        return entries, listing, Some(Os(e.value));
      }
      assert out[..|out|] == out;
    }
    if out !in fs.dirs {
      fs.NothingBelowFile(out);
      assert (out + [stem])[..|out|] == out;
      var e := fs.MakeDirs(out + [stem]);
      return entries, listing, Some(Os(e.value));
    }
    assert fs.dirs == OutDirs(D0, out);
    DirNamesWithPrefixes(D0, out);
    ghost var F1 := fs.files;
    entries, listing, err := PackAndPrune(fs, inDir, out, outText, stem, ttl, maxArchive, masks, purge, today);
    if err.None? && ttl.None? && maxArchive == Some(0) && IsCandidate(stem + ZipSuffix) {
      ZeroMaxDropsArchive(F1[out + [stem + ZipSuffix] := Zip(entries)], out, inDir, listing, stem + ZipSuffix,
                          outText, DirNames(D0, out), today);
    }
  }

  /** The archive's own name is one the pruner's glob lists, unless the task name makes it hidden. */
  lemma NewArchiveIsCandidate(name: string, now: Date, millis: int, rand: string)
    requires ValidDate(now) && !(|name| > 0 && name[0] == '.')
    ensures IsCandidate(ArchiveFileName(name, now, millis, rand))
  {
    var stem := ArchiveStem(name, now, millis, rand);
    var base := stem + ZipSuffix;
    CandidateIffSuffix(base);
    assert base[|base| - |ZipSuffix|..] == ZipSuffix;
    assert base[0] == stem[0];
    if |name| == 0 {
      assert stem[0] == '_';
    } else {
      assert stem[0] == name[0];
    }
  }

  /** The call of `pre_exec`, when one is given. */
  function PreCalls(preExec: Option<seq<string>>): seq<Hook> {
    if preExec.Some? then [PreExec(preExec.value)] else []
  }

  /** The call of `post_exec`, when one is given. */
  function PostCalls(postExec: Option<seq<string>>): seq<Hook> {
    if postExec.Some? then [PostExec(postExec.value)] else []
  }

  /**
    `archive_directory`. The directories arrive resolved (`None` when the
    caller passed `None`), `outText` is `out_dir` as given, and the clock
    and the random hex digits are parameters: `now` and `millis` are the
    date and the milliseconds of `datetime.now()`, `rand` the six digits of
    the uuid, `today` the date the pruner reads. `hooks` lists the hooks
    called, in order, and `entries` the content of the archive written.
  */
  method ArchiveDirectory(fs: Fs, name: string, inDir: Option<Path>, outDir: Option<Path>, outText: string,
                          ttl: Option<int>, maxArchive: Option<int>, masks: seq<string>, purge: bool,
                          preExec: Option<seq<string>>, postExec: Option<seq<string>>,
                          now: Date, millis: int, rand: string, today: Date)
    returns (run: Run, hooks: seq<Hook>, entries: map<Path, Content>, listing: seq<string>)
    requires fs.Valid() && ValidDate(now) && ValidDate(today)
    modifies fs
    ensures fs.Valid()
    ensures inDir.None? || outDir.None? ==>
      run == Raised(Invalid(DirIsNone)) && hooks == [] && fs.files == old(fs.files) && fs.dirs == old(fs.dirs)
    ensures inDir.Some? && outDir.Some? && Below(inDir.value, outDir.value) ==>
      run == Raised(Invalid(OutUnderIn)) && hooks == [] && fs.files == old(fs.files) && fs.dirs == old(fs.dirs)
    ensures inDir.Some? && outDir.Some? && inDir.value == outDir.value ==>
      run == Raised(Invalid(SameDir)) && hooks == [] && fs.files == old(fs.files) && fs.dirs == old(fs.dirs)
    ensures inDir.Some? && outDir.Some? && !Below(inDir.value, outDir.value) && inDir.value != outDir.value ==>
      (run == Raised(Invalid(InMissing)) <==> old(!fs.Exists(inDir.value)))
    ensures run == Raised(Invalid(InMissing)) ==>
      hooks == PreCalls(preExec) && fs.files == old(fs.files) && fs.dirs == old(fs.dirs)
    ensures run.Raised? && !run.error.Invalid? ==> hooks == PreCalls(preExec)
    ensures inDir.Some? && outDir.Some? && !Below(inDir.value, outDir.value) && inDir.value != outDir.value &&
            old(fs.Exists(inDir.value) && outDir.value in fs.dirs && fs.Exists(outDir.value + [ArchiveStem(name, now, millis, rand)])) ==>
      run == Raised(Os(FileExists)) && fs.files == old(fs.files) && fs.dirs == old(fs.dirs)
    ensures run.Archived? ==> inDir.Some? && outDir.Some? && old(fs.Exists(inDir.value))
    ensures run.Archived? ==>
      && hooks == PreCalls(preExec) + PostCalls(postExec)
      && run.path == JoinText(outText, ArchiveStem(name, now, millis, rand)) + ZipSuffix
      && entries == Selection(old(fs.files), inDir.value, masks)
    ensures run.Archived? || (run.Raised? && run.error.Pruning?) ==>
      && inDir.Some? && outDir.Some?
      && var i, o, base := inDir.value, outDir.value, ArchiveFileName(name, now, millis, rand);
         var c := Retention.CleanArchive(listing, outText, DirNames(old(fs.dirs), o), ttl, maxArchive, today);
         var pruned := WithoutNames(old(fs.files)[o + [base] := Zip(entries)], o, c.removed);
         && Distinct(listing) && base in listing
         && (forall n :: n in listing <==> n == base || old(fs.Exists(o + [n])))
         && (run.Archived? ==>
               && c.failure.None?
               && fs.files == (if purge then Outside(pruned, i) else pruned)
               && fs.dirs == (if purge then OutsideDirs(OutDirs(old(fs.dirs), o), i) else OutDirs(old(fs.dirs), o)))
         && (run.Raised? ==> c.failure == Some(run.error.failure) && fs.files == pruned && fs.dirs == OutDirs(old(fs.dirs), o))
    ensures run.Archived? ==> var i, o, zip := inDir.value, outDir.value, outDir.value + [ArchiveFileName(name, now, millis, rand)];
      && (forall p | p in fs.files :: (p in old(fs.files) && fs.files[p] == old(fs.files)[p]) || (p == zip && fs.files[p] == Zip(entries)))
      && (forall p | p in old(fs.files) && !Below(i, p) && !(|p| == |o| + 1 && p[..|o|] == o) :: p in fs.files)
      && (forall d | d in fs.dirs :: d in old(fs.dirs) || d in Prefixes(o))
      && (forall d | d in old(fs.dirs) && !Below(i, d) :: d in fs.dirs)
      && (purge ==> forall q | q in fs.files.Keys + fs.dirs :: !Below(i, q))
      && (ttl.None? && maxArchive.None? ==> zip in fs.files && fs.files[zip] == Zip(entries))
      && (ttl.None? && maxArchive == Some(0) && !(|name| > 0 && name[0] == '.') ==> zip !in fs.files)
  {
    hooks := [];
    entries, listing := map[], [];
    if inDir.None? || outDir.None? {
      return Raised(Invalid(DirIsNone)), hooks, entries, listing;
    }
    var stem := ArchiveStem(name, now, millis, rand);
    var i, o := inDir.value, outDir.value;
    if Below(i, o) {
      return Raised(Invalid(OutUnderIn)), hooks, entries, listing;
    }
    if i == o {
      return Raised(Invalid(SameDir)), hooks, entries, listing;
    }
    hooks := PreCalls(preExec);
    if !fs.Exists(i) {
      return Raised(Invalid(InMissing)), hooks, entries, listing;
    }
    if !(|name| > 0 && name[0] == '.') {
      NewArchiveIsCandidate(name, now, millis, rand);
    }
    var err;
    entries, listing, err := ArchiveInput(fs, i, o, outText, stem, ttl, maxArchive, masks, purge, today);
    if err.Some? {
      return Raised(err.value), hooks, entries, listing;
    }
    hooks := hooks + PostCalls(postExec);
    run := Archived(JoinText(outText, stem) + ZipSuffix);

  }
}
