/**
  What `_clean_archive` decides, as functions: which entries of the output
  directory it considers, which it removes by age, which by count, and where
  it stops with an exception. The method that carries the decisions out on
  the file system is `Archive.CleanArchive`.
*/
module Retention {
  import opened Wrappers
  import opened Dates
  import opened Naming
  import opened Seqs
  import Glob

  /** The Python exceptions that end a pruning run part-way. */
  datatype Failure =
    | TypeError       // `today - None`, or comparing a `None` millis while sorting
    | ValueError      // `datetime.date(...)` of digits that are not a date
    | IsADirectory    // `os.remove` of a directory whose name matches `*.archive.zip`

  /** An entry that survived the TTL pass, with `_parse_filename_to_millis` of its full path. */
  datatype Kept = Kept(base: string, millis: Option<nat>)

  /** Such an entry once its millis is known to be a number: the key of the sort. */
  datatype Stamped = Stamped(base: string, millis: nat)

  /**
    `glob.glob(os.path.join(archive_dir, '*' + ARCHIVE_ZIP_SUFFIX))` keeps the
    entries whose name matches the mask, leaving out hidden names (a leading `.`).
  */
  predicate IsCandidate(base: string) {
    Glob.Matches("*" + ZipSuffix, base) && !(|base| > 0 && base[0] == '.')
  }

  lemma CandidateIffSuffix(base: string)
    ensures IsCandidate(base) <==> |base| >= |ZipSuffix| && base[|base| - |ZipSuffix|..] == ZipSuffix && !(base[0] == '.')
  {
    Glob.StarSuffixMatches(ZipSuffix, base);
  }

  /** The candidates of a directory listing, in listing order. */
  function Candidates(listing: seq<string>): (c: seq<string>)
    ensures forall b :: b in c <==> b in listing && IsCandidate(b)
    ensures |c| <= |listing|
  {
    if |listing| == 0 then []
    else
      var c := Candidates(listing[..|listing| - 1]);
      assert listing == listing[..|listing| - 1] + [listing[|listing| - 1]];
      if IsCandidate(listing[|listing| - 1]) then c + [listing[|listing| - 1]] else c
  }

  /** Filtering a listing without repetitions gives candidates without repetitions. */
  lemma {:induction false} CandidatesDistinct(listing: seq<string>)
    requires Distinct(listing)
    ensures Distinct(Candidates(listing))
  {
    if |listing| > 0 {
      var pre := listing[..|listing| - 1];
      assert Distinct(pre) by {
        forall i, j | 0 <= i < j < |pre| ensures pre[i] != pre[j] {
          assert pre[i] == listing[i] && pre[j] == listing[j];
        }
      }
      CandidatesDistinct(pre);
      assert listing[|listing| - 1] !in pre by {
        forall i | 0 <= i < |pre| ensures pre[i] != listing[|listing| - 1] {
          assert pre[i] == listing[i];
        }
      }
    }
  }

  /** A one-entry listing has itself as candidate exactly when the entry is one. */
  lemma CandidatesOfOne(x: string)
    ensures Candidates([x]) == if IsCandidate(x) then [x] else []
  {
    assert [x][..0] == [];
  }

  /** The candidates of two listings in a row are those of the first followed by those of the second: filtering keeps the listing's order. */
  lemma {:induction false} CandidatesAppend(xs: seq<string>, ys: seq<string>)
    ensures Candidates(xs + ys) == Candidates(xs) + Candidates(ys)
    decreases |ys|
  {
    var l := xs + ys;
    if |ys| == 0 {
      assert l == xs;
    } else {
      var zs, y := ys[..|ys| - 1], ys[|ys| - 1];
      assert l[..|l| - 1] == xs + zs && l[|l| - 1] == y;
      var tail: seq<string> := if IsCandidate(y) then [y] else [];
      assert Candidates(l) == Candidates(xs + zs) + tail;
      assert Candidates(ys) == Candidates(zs) + tail;
      CandidatesAppend(xs, zs);
      assert Candidates(xs) + (Candidates(zs) + tail) == (Candidates(xs) + Candidates(zs)) + tail;
    }
  }

  /**
    `os.path.join(dir, base)` on POSIX: an absolute `base` replaces `dir`,
    and a `/` goes between them unless `dir` is empty or already ends in one.
  */
  function JoinText(dir: string, base: string): string {
    if |base| > 0 && base[0] == '/' then base
    else if |dir| == 0 || dir[|dir| - 1] == '/' then dir + base
    else dir + "/" + base
  }

  /** No `/` is doubled, none is missing, and an empty directory adds nothing. */
  lemma JoinTextCases()
    ensures JoinText("backups", "a.zip") == "backups/a.zip"
    ensures JoinText("backups/", "a.zip") == "backups/a.zip"
    ensures JoinText("", "a.zip") == "a.zip"
    ensures JoinText("backups", "/a.zip") == "/a.zip"
  {
    assert "backups" + "/" + "a.zip" == "backups/a.zip";
    assert "backups/" + "a.zip" == "backups/a.zip";
    assert "" + "a.zip" == "a.zip";
  }

  /** `s` is nothing but `/`. */
  predicate AllSlashes(s: string) {
    forall i | 0 <= i < |s| :: s[i] == '/'
  }

  /** `s` without its trailing `/`s. */
  function StripSlashes(s: string): (t: string)
    ensures |t| <= |s| && t == s[..|t|] && (|t| == 0 || t[|t| - 1] != '/')
    ensures forall i | |t| <= i < |s| :: s[i] == '/'
  {
    if |s| > 0 && s[|s| - 1] == '/' then StripSlashes(s[..|s| - 1]) else s
  }

  /**
    The directory text `glob.glob(os.path.join(dir, '*.archive.zip'))` joins
    its matches to: the head of `os.path.split` of the pattern, which drops
    trailing `/`s unless the head is all `/`.
  */
  function GlobDir(dirText: string): (g: string)
    ensures |g| <= |dirText| && g == dirText[..|g|]
  {
    if AllSlashes(dirText) then dirText else StripSlashes(dirText)
  }

  /** The full path glob returns for the entry `base` of directory `dirText`. */
  function GlobPath(dirText: string, base: string): string {
    JoinText(GlobDir(dirText), base)
  }

  /**
    The millis `_parse_filename_to_millis` reads from the full path glob
    returns are those of the base name, for a directory text without `_` or
    newline.
  */
  lemma MillisOfGlobPath(dirText: string, base: string)
    requires '_' !in dirText && NoNewline(dirText)
    ensures ParseFilenameToMillis(GlobPath(dirText, base)) == ParseFilenameToMillis(base)
  {
    var g := GlobDir(dirText);
    assert g == dirText[..|g|];
    assert '_' !in g && NoNewline(g) by {
      forall i | 0 <= i < |g| ensures g[i] != '_' && g[i] != '\n' {
        assert g[i] == dirText[i];
      }
    }
    if |base| > 0 && base[0] == '/' {
    } else if |g| == 0 || g[|g| - 1] == '/' {
      MillisOfJoinedPath(g, base);
    } else {
      NoNewlineConcat(g, "/");
      assert g + "/" + base == (g + "/") + base;
      MillisOfJoinedPath(g + "/", base);
    }
  }

  // ---------------------------------------------------------------------
  // The TTL pass: `for f in files: ... if delta.days > ttl: os.remove(f)`.
  // ---------------------------------------------------------------------

  datatype Verdict = Expired | Young | Fails(error: Failure)

  /** The TTL pass's decision for one candidate. */
  function TtlVerdict(base: string, ttl: Option<int>, today: Date): Verdict
    requires ValidDate(today)
  {
    if ttl.None? then Young
    else match ParseFilenameToDate(base)
      case NoMatch => Fails(TypeError)
      case BadDate => Fails(ValueError)
      case Parsed(d) => if DayDifference(today, d) > ttl.value then Expired else Young
  }

  /** What the loop body needs to know of one candidate: its verdict, its millis and whether it is a directory. */
  datatype Probe = Probe(base: string, verdict: Verdict, millis: Option<nat>, isDir: bool)

  /** The probes of the candidates of directory `dirText`; `dirs` are the candidates that are directories. */
  function Probes(cands: seq<string>, dirText: string, dirs: set<string>, ttl: Option<int>, today: Date): (ps: seq<Probe>)
    requires ValidDate(today)
    ensures |ps| == |cands|
    ensures forall i | 0 <= i < |cands| ::
      ps[i] == Probe(cands[i], TtlVerdict(cands[i], ttl, today),
                     ParseFilenameToMillis(GlobPath(dirText, cands[i])), cands[i] in dirs)
  {
    if |cands| == 0 then []
    else
      [Probe(cands[0], TtlVerdict(cands[0], ttl, today),
             ParseFilenameToMillis(GlobPath(dirText, cands[0])), cands[0] in dirs)]
      + Probes(cands[1..], dirText, dirs, ttl, today)
  }

  /** How far the TTL pass got: what it removed, what it kept, and the exception that stopped it. */
  datatype TtlState = TtlState(removed: seq<string>, kept: seq<Kept>, failure: Option<Failure>)

  /** Whether the loop body raises on this candidate. */
  predicate Raises(p: Probe) {
    p.verdict.Fails? || (p.verdict == Expired && p.isDir)
  }

  /** One iteration of the TTL loop; once an exception is raised nothing further happens. */
  function TtlStep(st: TtlState, p: Probe): TtlState
  {
    if st.failure.Some? then st
    else match p.verdict
      case Fails(e) => st.(failure := Some(e))
      case Expired => if p.isDir then st.(failure := Some(IsADirectory)) else st.(removed := st.removed + [p.base])
      case Young => st.(kept := st.kept + [Kept(p.base, p.millis)])
  }

  /** The TTL loop over the candidates' probes in glob order. */
  function TtlPass(ps: seq<Probe>): TtlState
  {
    if |ps| == 0 then TtlState([], [], None)
    else TtlStep(TtlPass(ps[..|ps| - 1]), ps[|ps| - 1])
  }

  /** The pass over one more candidate is one more step. */
  lemma TtlPassSnoc(ps: seq<Probe>, i: nat)
    requires i < |ps|
    ensures TtlPass(ps[..i + 1]) == TtlStep(TtlPass(ps[..i]), ps[i])
  {
    assert ps[..i + 1][..i] == ps[..i];
  }

  /**
    A TTL pass that completes raised on no candidate, removed every expired
    one and kept every young one.
  */
  lemma {:induction false} TtlPassComplete(ps: seq<Probe>)
    requires TtlPass(ps).failure.None?
    ensures forall i | 0 <= i < |ps| :: !Raises(ps[i])
    ensures forall i | 0 <= i < |ps| && ps[i].verdict == Expired :: ps[i].base in TtlPass(ps).removed
    ensures forall i | 0 <= i < |ps| && ps[i].verdict == Young :: Kept(ps[i].base, ps[i].millis) in TtlPass(ps).kept
    ensures |TtlPass(ps).removed| + |TtlPass(ps).kept| == |ps|
  {
    if |ps| > 0 {
      var pre := ps[..|ps| - 1];
      TtlPassComplete(pre);
      forall i | 0 <= i < |pre| ensures ps[i] == pre[i] { }
    }
  }

  /** Everything a TTL pass removed was expired, and everything it kept was young. */
  lemma {:induction false} TtlPassSound(ps: seq<Probe>)
    ensures forall b | b in TtlPass(ps).removed :: exists i :: 0 <= i < |ps| && ps[i].base == b && ps[i].verdict == Expired
    ensures forall k | k in TtlPass(ps).kept :: exists i :: 0 <= i < |ps| && Kept(ps[i].base, ps[i].millis) == k && ps[i].verdict == Young
  {
    if |ps| > 0 {
      var pre := ps[..|ps| - 1];
      TtlPassSound(pre);
      forall i | 0 <= i < |pre| ensures ps[i] == pre[i] { }
    }
  }

  /**
    A TTL pass that fails stopped at a candidate the loop body raises on:
    everything before it was handled and nothing after it was touched.
  */
  lemma {:induction false} TtlPassStops(ps: seq<Probe>)
    requires TtlPass(ps).failure.Some?
    ensures exists i :: (0 <= i < |ps| && Raises(ps[i]) && TtlPass(ps[..i]).failure.None?
                          && TtlPass(ps) == TtlStep(TtlPass(ps[..i]), ps[i]))
  {
    var pre := ps[..|ps| - 1];
    if TtlPass(pre).failure.Some? {
      TtlPassStops(pre);
      var i :| 0 <= i < |pre| && Raises(pre[i]) && TtlPass(pre[..i]).failure.None?
        && TtlPass(pre) == TtlStep(TtlPass(pre[..i]), pre[i]);
      assert pre[..i] == ps[..i];
    } else {
      assert ps[..|ps| - 1] == pre;
    }
  }

  /** Once the pass has raised, the remaining candidates change nothing. */
  lemma {:induction false} TtlPassAfterFailure(ps: seq<Probe>, i: nat)
    requires i <= |ps| && TtlPass(ps[..i]).failure.Some?
    ensures TtlPass(ps) == TtlPass(ps[..i])
    decreases |ps| - i
  {
    if i < |ps| {
      assert ps[..i + 1][..i] == ps[..i];
      TtlPassAfterFailure(ps, i + 1);
    } else {
      assert ps[..i] == ps;
    }
  }

  /** A pass over young candidates only keeps each of them, in listing order, and removes nothing. */
  lemma {:induction false} AllYoungKeepsAll(ps: seq<Probe>)
    requires forall i | 0 <= i < |ps| :: ps[i].verdict == Young
    ensures var st := TtlPass(ps);
      && st.failure.None? && st.removed == [] && |st.kept| == |ps|
      && forall i | 0 <= i < |ps| :: st.kept[i] == Kept(ps[i].base, ps[i].millis)
  {
    if |ps| > 0 {
      var pre := ps[..|ps| - 1];
      forall i | 0 <= i < |pre| ensures ps[i] == pre[i] { }
      AllYoungKeepsAll(pre);
    }
  }

  /** Without a `ttl` the pass removes nothing and keeps every candidate, in listing order. */
  lemma NoTtlKeepsAll(cands: seq<string>, dirText: string, dirs: set<string>, today: Date)
    requires ValidDate(today)
    ensures var st := TtlPass(Probes(cands, dirText, dirs, None, today));
      && st.failure.None? && st.removed == [] && |st.kept| == |cands|
      && forall i | 0 <= i < |cands| :: st.kept[i].base == cands[i]
  {
    AllYoungKeepsAll(Probes(cands, dirText, dirs, None, today));
  }

  /** A pass with a candidate the loop body raises on does not complete. */
  lemma {:induction false} RaisingProbeFails(ps: seq<Probe>, i: nat)
    requires i < |ps| && Raises(ps[i])
    ensures TtlPass(ps).failure.Some?
  {
    if i < |ps| - 1 {
      var pre := ps[..|ps| - 1];
      assert pre[i] == ps[i];
      RaisingProbeFails(pre, i);
    }
  }

  /** With a `ttl`, a candidate whose name does not read as an archive name stops the TTL pass. */
  lemma TtlPassFailsOnForeignName(cands: seq<string>, dirText: string, dirs: set<string>, ttl: int, today: Date, i: nat)
    requires ValidDate(today) && i < |cands| && ParseFilenameToDate(cands[i]).NoMatch?
    ensures TtlPass(Probes(cands, dirText, dirs, Some(ttl), today)).failure.Some?
  {
    var ps := Probes(cands, dirText, dirs, Some(ttl), today);
    assert ps[i].verdict == Fails(TypeError);
    RaisingProbeFails(ps, i);
  }

  // ---------------------------------------------------------------------
  // The max-count pass: `sorted(kept, key=millis)`, `reverse()`, remove `lst[max_archive:]`.
  // ---------------------------------------------------------------------

  predicate AllStamped(kept: seq<Kept>) {
    forall i | 0 <= i < |kept| :: kept[i].millis.Some?
  }

  function Stamps(kept: seq<Kept>): (s: seq<Stamped>)
    requires AllStamped(kept)
    ensures |s| == |kept|
    ensures forall i | 0 <= i < |kept| :: s[i] == Stamped(kept[i].base, kept[i].millis.value)
  {
    if |kept| == 0 then [] else [Stamped(kept[0].base, kept[0].millis.value)] + Stamps(kept[1..])
  }

  /** Each key is at most the next one. */
  predicate Ascending(s: seq<Stamped>) {
    forall i | 0 <= i < |s| - 1 :: s[i].millis <= s[i + 1].millis
  }

  /** Each key is at least the next one. */
  predicate Descending(s: seq<Stamped>) {
    forall i | 0 <= i < |s| - 1 :: s[i].millis >= s[i + 1].millis
  }

  /** In a descending sequence every earlier key is at least every later one. */
  lemma {:induction false} DescendingPairs(s: seq<Stamped>, i: nat, j: nat)
    requires Descending(s) && i <= j < |s|
    ensures s[i].millis >= s[j].millis
    decreases j - i
  {
    if i < j {
      DescendingPairs(s, i + 1, j);
    }
  }

  /**
    Insert `x` after every leading element whose key is not larger: `x` comes
    later in the input than those, and Python's sort is stable.
  */
  function Insert(x: Stamped, s: seq<Stamped>): (r: seq<Stamped>)
    requires Ascending(s)
    ensures |r| == |s| + 1
    ensures Ascending(r)
    ensures multiset(r) == multiset(s) + multiset{x}
    ensures r[0] == x || (|s| > 0 && r[0] == s[0])
  {
    if |s| == 0 || x.millis < s[0].millis then [x] + s
    else
      var rest := Insert(x, s[1..]);
      assert s == [s[0]] + s[1..];
      [s[0]] + rest
  }

  /** `sorted(…, key=operator.itemgetter(1))`: a stable insertion sort on the millis. */
  function SortByMillis(s: seq<Stamped>): (r: seq<Stamped>)
    ensures Ascending(r) && multiset(r) == multiset(s) && |r| == |s|
  {
    if |s| == 0 then []
    else
      assert s == s[..|s| - 1] + [s[|s| - 1]];
      Insert(s[|s| - 1], SortByMillis(s[..|s| - 1]))
  }

  function Reverse<T>(s: seq<T>): (r: seq<T>)
    ensures |r| == |s| && forall i | 0 <= i < |s| :: r[i] == s[|s| - 1 - i]
  {
    if |s| == 0 then [] else [s[|s| - 1]] + Reverse(s[..|s| - 1])
  }

  /**
    Where Python's `lst[n:]` starts in a list of `len` items: the slice drops
    the first `n` items, all of them when there are fewer; a negative `n`
    keeps the last `-n` items, all of them when there are fewer.
  */
  function SliceStart(len: nat, n: int): (i: nat)
    ensures i <= len
    ensures n >= 0 ==> len - i == (if len >= n then len - n else 0)
    ensures n < 0 ==> len - i == (if len >= -n then -n else len)
  {
    if n >= 0 then (if n <= len then n else len) else if -n <= len then len + n else 0
  }

  function Bases(s: seq<Stamped>): (b: seq<string>)
    ensures |b| == |s| && forall i | 0 <= i < |s| :: b[i] == s[i].base
  {
    if |s| == 0 then [] else [s[0].base] + Bases(s[1..])
  }

  /** The newest first: the kept entries sorted by millis, then `lst.reverse()`. */
  function NewestFirst(kept: seq<Kept>): (r: seq<Stamped>)
    requires AllStamped(kept)
    ensures Descending(r) && multiset(r) == multiset(Stamps(kept)) && |r| == |kept|
  {
    var sorted := SortByMillis(Stamps(kept));
    ReverseMultiset(sorted);
    ReverseAscending(sorted);
    Reverse(sorted)
  }

  lemma ReverseAscending(s: seq<Stamped>)
    requires Ascending(s)
    ensures Descending(Reverse(s))
  {
    var r := Reverse(s);
    forall i | 0 <= i < |r| - 1 ensures r[i].millis >= r[i + 1].millis {
      assert r[i] == s[|s| - 1 - i] && r[i + 1] == s[|s| - 2 - i];
    }
  }

  lemma {:induction false} ReverseMultiset<T>(s: seq<T>)
    ensures multiset(Reverse(s)) == multiset(s)
  {
    if |s| > 0 {
      ReverseMultiset(s[..|s| - 1]);
      assert s == s[..|s| - 1] + [s[|s| - 1]];
      assert Reverse(s) == [s[|s| - 1]] + Reverse(s[..|s| - 1]);
    }
  }

  /**
    The names the max-count pass removes, in the order it removes them, or the
    exception the sort raises. With one kept entry nothing is compared, so a
    `None` millis is harmless there.
  */
  function CountVictims(kept: seq<Kept>, maxArchive: Option<int>): Result<seq<string>>
  {
    if maxArchive.None? || |kept| == 0 then Ok([])
    else if |kept| == 1 then Ok([kept[0].base][SliceStart(1, maxArchive.value)..])
    else if !AllStamped(kept) then Err(TypeError)
    else
      var order := NewestFirst(kept);
      Ok(Bases(order[SliceStart(|order|, maxArchive.value)..]))
  }

  datatype Result<T> = Ok(value: T) | Err(error: Failure)

  /**
    The max-count pass keeps the newest: of the kept entries (all with a
    millis), the survivors are the first `min(n, max_archive)` of the newest
    first order, a victim is never newer than a survivor, and survivors and
    victims together are the kept entries.
  */
  lemma CountPassKeepsNewest(kept: seq<Kept>, maxArchive: nat)
    requires |kept| >= 2 && AllStamped(kept)
    ensures var order, cut := NewestFirst(kept), SliceStart(|kept|, maxArchive);
      && CountVictims(kept, Some(maxArchive)) == Ok(Bases(order[cut..]))
      && |order[..cut]| == (if maxArchive < |kept| then maxArchive else |kept|)
      && multiset(order[..cut]) + multiset(order[cut..]) == multiset(Stamps(kept))
      && (forall s, v | s in order[..cut] && v in order[cut..] :: v.millis <= s.millis)
  {
    var order, cut := NewestFirst(kept), SliceStart(|kept|, maxArchive);
    SplitKeepsNewest(order, cut);
  }

  /** Cutting a newest-first order leaves nothing in the tail newer than anything in the head. */
  lemma SplitKeepsNewest(order: seq<Stamped>, cut: nat)
    requires Descending(order) && cut <= |order|
    ensures multiset(order[..cut]) + multiset(order[cut..]) == multiset(order)
    ensures forall s, v | s in order[..cut] && v in order[cut..] :: v.millis <= s.millis
  {
    assert order == order[..cut] + order[cut..];
    forall s, v | s in order[..cut] && v in order[cut..] ensures v.millis <= s.millis {
      var i :| 0 <= i < cut && order[i] == s;
      var j :| cut <= j < |order| && order[j] == v;
      DescendingPairs(order, i, j);
    }
  }

  /** Without `max_archive` the count pass removes nothing; with `max_archive` of 0 it removes every kept entry. */
  lemma CountPassLimits(kept: seq<Kept>)
    ensures CountVictims(kept, None) == Ok([])
    ensures |kept| >= 1 && (|kept| == 1 || AllStamped(kept)) ==>
      CountVictims(kept, Some(0)).Ok? && |CountVictims(kept, Some(0)).value| == |kept|
  {
  }

  // ---------------------------------------------------------------------
  // The count pass removes kept entries only, each at most once.
  // ---------------------------------------------------------------------

  /** The names of the kept entries, in order. */
  function KeptBases(kept: seq<Kept>): (b: seq<string>)
    ensures |b| == |kept| && forall i | 0 <= i < |kept| :: b[i] == kept[i].base
  {
    if |kept| == 0 then [] else [kept[0].base] + KeptBases(kept[1..])
  }

  predicate DistinctBases(s: seq<Stamped>) {
    forall i, j | 0 <= i < j < |s| :: s[i].base != s[j].base
  }

  lemma {:induction false} CountAtMostOne<T>(s: seq<T>, x: T)
    requires Distinct(s)
    ensures multiset(s)[x] <= 1
  {
    if |s| > 0 {
      assert s == [s[0]] + s[1..];
      CountAtMostOne(s[1..], x);
      if s[0] == x {
        assert x !in s[1..];
      }
    }
  }

  lemma CountAtLeastTwo<T>(t: seq<T>, i: nat, j: nat)
    requires i < j < |t|
    ensures t[i] == t[j] ==> multiset(t)[t[i]] >= 2
  {
    assert t == t[..j] + [t[j]] + t[j + 1..];
    assert t[i] in t[..j];
  }

  /** Reordering keeps names distinct. */
  lemma PermutationKeepsDistinctBases(s: seq<Stamped>, t: seq<Stamped>)
    requires multiset(s) == multiset(t) && DistinctBases(s)
    ensures DistinctBases(t)
  {
    assert Distinct(s);
    forall i, j | 0 <= i < j < |t| ensures t[i].base != t[j].base {
      CountAtMostOne(s, t[i]);
      CountAtLeastTwo(t, i, j);
      assert t[i] in multiset(s) && t[j] in multiset(s);
      var a :| 0 <= a < |s| && s[a] == t[i];
      var b :| 0 <= b < |s| && s[b] == t[j];
    }
  }

  /** The names in the tail of a reordering are distinct names of the original. */
  lemma TailOfReordering(s: seq<Stamped>, order: seq<Stamped>, cut: nat)
    requires multiset(s) == multiset(order) && DistinctBases(s) && cut <= |order|
    ensures Distinct(Bases(order[cut..]))
    ensures forall x | x in Bases(order[cut..]) :: exists i :: 0 <= i < |s| && s[i].base == x
  {
    PermutationKeepsDistinctBases(s, order);
    var v := Bases(order[cut..]);
    forall x | x in v ensures exists i :: 0 <= i < |s| && s[i].base == x {
      var j :| 0 <= j < |v| && v[j] == x;
      assert order[cut + j] in multiset(s);
      var i :| 0 <= i < |s| && s[i] == order[cut + j];
    }
  }

  lemma StampsDistinct(kept: seq<Kept>)
    requires AllStamped(kept) && Distinct(KeptBases(kept))
    ensures DistinctBases(Stamps(kept))
  {
    var s := Stamps(kept);
    forall i, j | 0 <= i < j < |s| ensures s[i].base != s[j].base {
      assert KeptBases(kept)[i] != KeptBases(kept)[j];
    }
  }

  lemma KeptBasesSnoc(kept: seq<Kept>, k: Kept)
    ensures KeptBases(kept + [k]) == KeptBases(kept) + [k.base]
  {
  }

  /** A name not among the earlier candidates is neither removed nor kept by the pass over them. */
  lemma FreshNameUntouched(ps: seq<Probe>, x: string)
    requires forall i | 0 <= i < |ps| :: ps[i].base != x
    ensures x !in TtlPass(ps).removed && x !in KeptBases(TtlPass(ps).kept)
  {
    TtlPassSound(ps);
    var st := TtlPass(ps);
    assert forall j | 0 <= j < |st.kept| :: st.kept[j] in st.kept;
  }

  /**
    Over candidates with distinct names, the TTL pass removes each name at
    most once, keeps each at most once, and never both removes and keeps one.
  */
  lemma {:induction false} TtlPassDistinct(ps: seq<Probe>)
    requires forall i, j | 0 <= i < j < |ps| :: ps[i].base != ps[j].base
    ensures var st := TtlPass(ps);
      Distinct(st.removed) && Distinct(KeptBases(st.kept)) && forall b | b in st.removed :: b !in KeptBases(st.kept)
  {
    if |ps| > 0 {
      var pre := ps[..|ps| - 1];
      var x := ps[|ps| - 1];
      TtlPassDistinct(pre);
      FreshNameUntouched(pre, x.base);
      var st := TtlPass(pre);
      assert TtlPass(ps) == TtlStep(st, x);
      if st.failure.None? && x.verdict == Expired && !x.isDir {
        DistinctSnoc(st.removed, x.base);
      } else if st.failure.None? && x.verdict == Young {
        KeptBasesSnoc(st.kept, Kept(x.base, x.millis));
        DistinctSnoc(KeptBases(st.kept), x.base);
      }
    }
  }

  /**
    The count pass removes only entries that the TTL pass kept, and none of
    them twice, when the kept names are distinct.
  */
  lemma CountVictimsFromKept(kept: seq<Kept>, maxArchive: Option<int>)
    requires Distinct(KeptBases(kept))
    ensures CountVictims(kept, maxArchive).Ok? ==>
      var v := CountVictims(kept, maxArchive).value;
      Distinct(v) && forall x | x in v :: x in KeptBases(kept)
  {
    if maxArchive.None? || |kept| == 0 {
    } else if |kept| == 1 {
      var v := [kept[0].base][SliceStart(1, maxArchive.value)..];
      assert KeptBases(kept) == [kept[0].base];
      assert v == [] || v == [kept[0].base];
    } else if AllStamped(kept) {
      var s := Stamps(kept);
      var order := NewestFirst(kept);
      var cut := SliceStart(|kept|, maxArchive.value);
      StampsDistinct(kept);
      TailOfReordering(s, order, cut);
      var v := Bases(order[cut..]);
      assert CountVictims(kept, maxArchive) == Ok(v);
      StampsKeepBases(kept);
    }
  }

  /** Every name among the stamps of the kept entries is a kept name. */
  lemma StampsKeepBases(kept: seq<Kept>)
    requires AllStamped(kept)
    ensures forall x | (exists i :: 0 <= i < |Stamps(kept)| && Stamps(kept)[i].base == x) :: x in KeptBases(kept)
  {
    var s := Stamps(kept);
    forall x | exists i :: 0 <= i < |s| && s[i].base == x ensures x in KeptBases(kept) {
      var i :| 0 <= i < |s| && s[i].base == x;
      assert KeptBases(kept)[i] == x;
    }
  }

  /**
    Over a listing without repetitions, the count pass removes only
    candidates, each at most once, and none that the TTL pass already removed.
  */
  lemma VictimsAreFreshCandidates(cands: seq<string>, dirText: string, dirs: set<string>, ttl: Option<int>,
                                  maxArchive: Option<int>, today: Date)
    requires ValidDate(today) && Distinct(cands)
    ensures var t := TtlPass(Probes(cands, dirText, dirs, ttl, today));
      t.failure.None? && CountVictims(t.kept, maxArchive).Ok? ==>
        var v := CountVictims(t.kept, maxArchive).value;
        Distinct(v) && forall x | x in v :: x in cands && x !in t.removed
  {
    var ps := Probes(cands, dirText, dirs, ttl, today);
    var t := TtlPass(ps);
    TtlPassSound(ps);
    TtlPassDistinct(ps);
    CountVictimsFromKept(t.kept, maxArchive);
    var kb := KeptBases(t.kept);
    forall x | x in kb ensures x in cands {
      var j :| 0 <= j < |t.kept| && kb[j] == x;
      assert t.kept[j] in t.kept;
      var i :| 0 <= i < |ps| && Kept(ps[i].base, ps[i].millis) == t.kept[j] && ps[i].verdict == Young;
      assert cands[i] == x;
    }
  }

  // ---------------------------------------------------------------------
  // The whole run.
  // ---------------------------------------------------------------------

  /** How far the removal loop of the count pass got. */
  datatype RemoveState = RemoveState(removed: seq<string>, failure: Option<Failure>)

  /** `for f, millis in lst[max_archive:]: os.remove(f)`, which stops at the first directory. */
  function RemoveEach(victims: seq<string>, dirs: set<string>): RemoveState
  {
    if |victims| == 0 then RemoveState([], None)
    else
      var st := RemoveEach(victims[..|victims| - 1], dirs);
      var v := victims[|victims| - 1];
      if st.failure.Some? then st
      else if v in dirs then st.(failure := Some(IsADirectory))
      else st.(removed := st.removed + [v])
  }

  /** Removing one more victim is one more step of the loop. */
  lemma RemoveEachSnoc(victims: seq<string>, dirs: set<string>, j: nat)
    requires j < |victims|
    ensures var st := RemoveEach(victims[..j], dirs);
      RemoveEach(victims[..j + 1], dirs) ==
        if st.failure.Some? then st
        else if victims[j] in dirs then st.(failure := Some(IsADirectory))
        else st.(removed := st.removed + [victims[j]])
  {
    assert victims[..j + 1][..j] == victims[..j];
  }

  /** Once a removal has raised, the remaining victims change nothing. */
  lemma {:induction false} RemoveEachAfterFailure(victims: seq<string>, dirs: set<string>, i: nat)
    requires i <= |victims| && RemoveEach(victims[..i], dirs).failure.Some?
    ensures RemoveEach(victims, dirs) == RemoveEach(victims[..i], dirs)
    decreases |victims| - i
  {
    if i < |victims| {
      assert victims[..i + 1][..i] == victims[..i];
      RemoveEachAfterFailure(victims, dirs, i + 1);
    } else {
      assert victims[..i] == victims;
    }
  }

  datatype Outcome = Outcome(removed: seq<string>, failure: Option<Failure>)

  /**
    `_clean_archive(archive_dir, ttl, max_archive)` on a directory whose
    entries glob lists as `listing`: everything removed (by age, then by count)
    and the exception that ended the run, if one did.
  */
  function CleanArchive(listing: seq<string>, dirText: string, dirs: set<string>, ttl: Option<int>, maxArchive: Option<int>, today: Date): Outcome
    requires ValidDate(today)
  {
    var t := TtlPass(Probes(Candidates(listing), dirText, dirs, ttl, today));
    if t.failure.Some? then Outcome(t.removed, t.failure)
    else match CountVictims(t.kept, maxArchive)
      case Err(e) => Outcome(t.removed, Some(e))
      case Ok(victims) =>
        var r := RemoveEach(victims, dirs);
        Outcome(t.removed + r.removed, r.failure)
  }

  /** With neither a time-to-live nor a maximum count the pruner removes nothing and raises nothing. */
  lemma NoLimitsRemoveNothing(listing: seq<string>, dirText: string, dirs: set<string>, today: Date)
    requires ValidDate(today)
    ensures CleanArchive(listing, dirText, dirs, None, None, today) == Outcome([], None)
  {
    AllYoungKeepsAll(Probes(Candidates(listing), dirText, dirs, None, today));
  }

  /** A removal loop that raised nothing removed every victim, in order. */
  lemma {:induction false} RemoveEachCompletes(victims: seq<string>, dirs: set<string>)
    requires RemoveEach(victims, dirs).failure.None?
    ensures RemoveEach(victims, dirs).removed == victims
  {
    if |victims| > 0 {
      var pre := victims[..|victims| - 1];
      RemoveEachCompletes(pre, dirs);
      assert pre + [victims[|victims| - 1]] == victims;
    }
  }

  /**
    With no `ttl` and a `max_archive` of 0, a run that raises nothing removes
    every entry the glob lists, the archive just written among them.
  */
  lemma ZeroMaxRemovesAll(listing: seq<string>, dirText: string, dirs: set<string>, today: Date)
    requires ValidDate(today)
    ensures var o := CleanArchive(listing, dirText, dirs, None, Some(0), today);
      o.failure.None? ==> forall b | b in Candidates(listing) :: b in o.removed
  {
    var cands := Candidates(listing);
    var t := TtlPass(Probes(cands, dirText, dirs, None, today));
    NoTtlKeepsAll(cands, dirText, dirs, today);
    var kept := t.kept;
    var cv := CountVictims(kept, Some(0));
    if cv.Ok? && RemoveEach(cv.value, dirs).failure.None? {
      RemoveEachCompletes(cv.value, dirs);
      forall b | b in cands ensures b in cv.value {
        var i :| 0 <= i < |cands| && cands[i] == b;
        assert kept[i].base == b;
        if |kept| >= 2 {
          var order := NewestFirst(kept);
          assert SliceStart(|order|, 0) == 0;
          assert order[0..] == order;
          assert Stamps(kept)[i] in multiset(order);
          var j :| 0 <= j < |order| && order[j] == Stamps(kept)[i];
          assert Bases(order)[j] == b;
        }
      }
    }
  }
}
