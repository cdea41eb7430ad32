/**
  The archive naming grammar of archive.py: rendering
  `<name>_<YYYYMMDD>_<millis>_<rand>.archive.zip` from its fields, and the
  regular expression that reads it back, as Python's `re.match` runs it.
*/
module Naming {
  import opened Wrappers
  import opened Dates

  const ZipSuffix := ".archive.zip"

  predicate IsDigit(c: char) {
    '0' <= c <= '9'
  }

  predicate AllDigits(s: string) {
    forall i | 0 <= i < |s| :: IsDigit(s[i])
  }

  /** What the regular expression `.` accepts, character by character: anything but a newline. */
  predicate NoNewline(s: string) {
    forall i | 0 <= i < |s| :: s[i] != '\n'
  }

  function DigitValue(c: char): nat
    requires IsDigit(c)
  {
    (c as int) - ('0' as int)
  }

  function DigitChar(n: nat): (c: char)
    requires n < 10
    ensures IsDigit(c) && DigitValue(c) == n
  {
    ('0' as int + n) as char
  }

  /** Python's `int(s)` on a string of ASCII digits. */
  function DecimalValue(s: string): nat
    requires AllDigits(s)
  {
    if |s| == 0 then 0 else DecimalValue(s[..|s| - 1]) * 10 + DigitValue(s[|s| - 1])
  }

  /** Python's `str(n)` for a non-negative integer. */
  function NatText(n: nat): (t: string)
    ensures |t| >= 1 && AllDigits(t)
  {
    if n < 10 then [DigitChar(n)] else NatText(n / 10) + [DigitChar(n % 10)]
  }

  /** Python's `str(n)`: a minus sign before the digits of a negative number. */
  function IntText(n: int): string {
    if n < 0 then "-" + NatText(-n) else NatText(n)
  }

  function Pow10(w: nat): nat {
    if w == 0 then 1 else 10 * Pow10(w - 1)
  }

  /** `n` in decimal, zero-padded to `w` digits (the `%Y`, `%m`, `%d` of strftime). */
  function Padded(n: nat, w: nat): (t: string)
    ensures |t| == w && AllDigits(t)
  {
    if w == 0 then [] else Padded(n / 10, w - 1) + [DigitChar(n % 10)]
  }

  /** `now.strftime('%Y%m%d')`. */
  function FormatDate(d: Date): (t: string)
    requires ValidDate(d)
    ensures |t| == 8 && AllDigits(t)
  {
    Padded(d.year, 4) + Padded(d.month, 2) + Padded(d.day, 2)
  }

  /** `ARCHIVE_PATTERN.format(name=..., date=..., millis=..., rand=...)`: the workspace directory's name. */
  function ArchiveStem(name: string, date: Date, millis: int, rand: string): string
    requires ValidDate(date)
  {
    name + "_" + FormatDate(date) + "_" + IntText(millis) + "_" + rand
  }

  /** The archive's file name: the stem followed by `ARCHIVE_ZIP_SUFFIX`. */
  function ArchiveFileName(name: string, date: Date, millis: int, rand: string): string
    requires ValidDate(date)
  {
    ArchiveStem(name, date, millis, rand) + ZipSuffix
  }

  // ---------------------------------------------------------------------
  // ARCHIVE_PARSE_PATTERN:
  //   (?P<name>.*?)_(?P<y>[0-9]{4})(?P<m>[0-9]{2})(?P<d>[0-9]{2})_(?P<millis>[0-9]+)_(?P<rand_str>.{6})
  // followed by the suffix pasted in unescaped, so that its two dots are
  // wildcards. `re.match` anchors the match at the start only.
  // ---------------------------------------------------------------------

  /** The named groups of a successful match. */
  datatype Groups = Groups(name: string, y: string, m: string, d: string, millis: string, rand: string)

  /** The twelve characters after the random part, read as the regular expression `.archive.zip`. */
  predicate SuffixMatches(t: string)
    requires |t| == |ZipSuffix|
  {
    forall i | 0 <= i < |ZipSuffix| :: if ZipSuffix[i] == '.' then t[i] != '\n' else t[i] == ZipSuffix[i]
  }

  /** The pattern matches a prefix of `s` with a name group of length `k` and a millis group of length `j`. */
  predicate MatchesAt(s: string, k: nat, j: nat) {
    && 1 <= j
    && k + j + 29 <= |s|
    && NoNewline(s[..k])
    && s[k] == '_'
    && AllDigits(s[k + 1..k + 9])
    && s[k + 9] == '_'
    && AllDigits(s[k + 10..k + 10 + j])
    && s[k + 10 + j] == '_'
    && NoNewline(s[k + 11 + j..k + 17 + j])
    && SuffixMatches(s[k + 17 + j..k + 29 + j])
  }

  function GroupsAt(s: string, k: nat, j: nat): (g: Groups)
    requires MatchesAt(s, k, j)
    ensures |g.name| == k && |g.millis| == j && |g.rand| == 6
    ensures |g.y| == 4 && |g.m| == 2 && |g.d| == 2
    ensures AllDigits(g.y) && AllDigits(g.m) && AllDigits(g.d) && AllDigits(g.millis)
  {
    DigitsWithin(s, k + 1, k + 9, k + 1, k + 5);
    DigitsWithin(s, k + 1, k + 9, k + 5, k + 7);
    DigitsWithin(s, k + 1, k + 9, k + 7, k + 9);
    Groups(s[..k], s[k + 1..k + 5], s[k + 5..k + 7], s[k + 7..k + 9], s[k + 10..k + 10 + j], s[k + 11 + j..k + 17 + j])
  }

  lemma DigitsWithin(s: string, a: nat, b: nat, c: nat, d: nat)
    requires a <= c <= d <= b <= |s| && AllDigits(s[a..b])
    ensures AllDigits(s[c..d])
  {
    forall i | 0 <= i < d - c ensures IsDigit(s[c..d][i]) {
      assert s[c..d][i] == s[a..b][c - a + i];
    }
  }

  /** The length of the run of digits that starts at `i`. */
  function DigitRun(s: string, i: nat): (n: nat)
    requires i <= |s|
    ensures i + n <= |s| && AllDigits(s[i..i + n])
    ensures i + n < |s| ==> !IsDigit(s[i + n])
    decreases |s| - i
  {
    if i < |s| && IsDigit(s[i]) then
      var n := 1 + DigitRun(s, i + 1);
      assert s[i..i + n] == [s[i]] + s[i + 1..i + n];
      n
    else 0
  }

  /** For a given name length there is at most one millis length: the digits must run up to a `_`. */
  lemma MillisLengthUnique(s: string, k: nat, j: nat)
    requires MatchesAt(s, k, j)
    ensures j == DigitRun(s, k + 10)
  {
  }

  lemma MillisLengthUniqueAll(s: string, k: nat)
    requires k + 10 <= |s|
    ensures forall j: nat | MatchesAt(s, k, j) :: j == DigitRun(s, k + 10)
  {
    forall j: nat | MatchesAt(s, k, j) ensures j == DigitRun(s, k + 10) {
      MillisLengthUnique(s, k, j);
    }
  }

  /** One attempt of the regex engine with the name group `s[..k]`. */
  function TryAt(s: string, k: nat): (r: Option<Groups>)
    requires k <= |s|
    ensures r.Some? ==> MatchesAt(s, k, |r.value.millis|) && r.value == GroupsAt(s, k, |r.value.millis|)
    ensures r.None? ==> forall j: nat :: !MatchesAt(s, k, j)
  {
    if k + 29 > |s| then None
    else
      var n := DigitRun(s, k + 10);
      if MatchesAt(s, k, n) then Some(GroupsAt(s, k, n))
      else
        MillisLengthUniqueAll(s, k);
        None
  }

  /** The lazy name group: try the name lengths k, k+1, ... until one matches or a newline stops `.*?`. */
  function Search(s: string, k: nat): (r: Option<Groups>)
    requires k <= |s| && NoNewline(s[..k])
    ensures r.Some? ==> k <= |r.value.name|
    ensures r.Some? ==> MatchesAt(s, |r.value.name|, |r.value.millis|)
    ensures r.Some? ==> r.value == GroupsAt(s, |r.value.name|, |r.value.millis|)
    ensures r.Some? ==> forall k': nat, j: nat | k <= k' < |r.value.name| :: !MatchesAt(s, k', j)
    ensures r.None? ==> forall k': nat, j: nat | k <= k' :: !MatchesAt(s, k', j)
    decreases |s| - k
  {
    match TryAt(s, k)
    case Some(g) => Some(g)
    case None =>
      if k < |s| && s[k] != '\n' then
        assert s[..k + 1] == s[..k] + [s[k]];
        Search(s, k + 1)
      else
        assert forall k': nat, j: nat | k < k' && MatchesAt(s, k', j) :: false by {
          forall k': nat, j: nat | k < k' && MatchesAt(s, k', j) ensures false {
          }
        }
        None
  }

  /**
    `re.match(ARCHIVE_PARSE_PATTERN, s)`: the match with the shortest name group,
    or None when the pattern matches no prefix of `s`.
  */
  function Match(s: string): (r: Option<Groups>)
    ensures r.Some? ==> MatchesAt(s, |r.value.name|, |r.value.millis|)
    ensures r.Some? ==> r.value == GroupsAt(s, |r.value.name|, |r.value.millis|)
    ensures r.Some? ==> forall k: nat, j: nat | k < |r.value.name| :: !MatchesAt(s, k, j)
    ensures r.None? <==> forall k: nat, j: nat :: !MatchesAt(s, k, j)
  {
    Search(s, 0)
  }

  /** What `_parse_filename_to_date` does: no match, a match whose digits `datetime.date` rejects, or a date. */
  datatype DateParse = NoMatch | BadDate | Parsed(date: Date)

  function MatchedDate(g: Groups): Date
    requires |g.y| == 4 && |g.m| == 2 && |g.d| == 2 && AllDigits(g.y) && AllDigits(g.m) && AllDigits(g.d)
  {
    Date(DecimalValue(g.y), DecimalValue(g.m), DecimalValue(g.d))
  }

  /** `_parse_filename_to_date(name)`. */
  function ParseFilenameToDate(name: string): (r: DateParse)
    ensures r.NoMatch? <==> forall k: nat, j: nat :: !MatchesAt(name, k, j)
    ensures r.Parsed? ==> ValidDate(r.date)
    ensures r.Parsed? ==> FormatDate(r.date) == Match(name).value.y + Match(name).value.m + Match(name).value.d
    ensures r.BadDate? <==> Match(name).Some? && !ValidDate(MatchedDate(Match(name).value))
    ensures r.Parsed? ==> r.date == MatchedDate(Match(name).value)
  {
    match Match(name)
    case None => NoMatch
    case Some(g) =>
      var d := MatchedDate(g);
      if ValidDate(d) then
        FormatDateOfDigits(g.y, g.m, g.d);
        Parsed(d)
      else BadDate
  }

  /** `_parse_filename_to_millis(name)`. */
  function ParseFilenameToMillis(name: string): (r: Option<nat>)
    ensures r.None? <==> forall k: nat, j: nat :: !MatchesAt(name, k, j)
    ensures r.Some? ==> NatText(r.value) == StripZeros(Match(name).value.millis)
  {
    match Match(name)
    case None => None
    case Some(g) =>
      StripZerosValue(g.millis);
      Some(DecimalValue(g.millis))
  }

  // ---------------------------------------------------------------------
  // Decimal digits: the value of what is rendered, and the rendering of a value.
  // ---------------------------------------------------------------------

  /** A digit string without its leading zeros (keeping one digit). */
  function StripZeros(s: string): string
    requires |s| >= 1
  {
    if |s| > 1 && s[0] == '0' then StripZeros(s[1..]) else s
  }

  lemma {:induction false} DecimalValueOfNatText(n: nat)
    ensures DecimalValue(NatText(n)) == n
  {
    if n >= 10 {
      var t := NatText(n / 10) + [DigitChar(n % 10)];
      assert t[..|t| - 1] == NatText(n / 10);
      DecimalValueOfNatText(n / 10);
    }
  }

  lemma {:induction false} DecimalValueOfPadded(n: nat, w: nat)
    requires n < Pow10(w)
    ensures DecimalValue(Padded(n, w)) == n
  {
    if w > 0 {
      var t := Padded(n / 10, w - 1) + [DigitChar(n % 10)];
      assert t[..|t| - 1] == Padded(n / 10, w - 1);
      DecimalValueOfPadded(n / 10, w - 1);
    }
  }

  lemma {:induction false} PaddedOfDecimalValue(s: string)
    requires AllDigits(s)
    ensures Padded(DecimalValue(s), |s|) == s
  {
    if |s| > 0 {
      var p := s[..|s| - 1];
      PaddedOfDecimalValue(p);
      assert s == p + [s[|s| - 1]];
    }
  }

  lemma {:induction false} DecimalValueBound(s: string)
    requires AllDigits(s)
    ensures DecimalValue(s) < Pow10(|s|)
  {
    if |s| > 0 {
      DecimalValueBound(s[..|s| - 1]);
    }
  }

  /** Leading zeros do not count: `int('007') == 7`, and `str(7)` is the stripped digits. */
  lemma {:induction false} StripZerosValue(s: string)
    requires |s| >= 1 && AllDigits(s)
    ensures AllDigits(StripZeros(s)) && DecimalValue(StripZeros(s)) == DecimalValue(s)
    ensures NatText(DecimalValue(s)) == StripZeros(s)
    decreases |s|
  {
    if |s| > 1 && s[0] == '0' {
      LeadingZero(s);
      StripZerosValue(s[1..]);
    } else {
      NatTextOfDecimalValue(s);
    }
  }

  lemma {:induction false} LeadingZero(s: string)
    requires |s| > 1 && AllDigits(s) && s[0] == '0'
    ensures DecimalValue(s) == DecimalValue(s[1..])
    decreases |s|
  {
    var t := s[1..];
    assert s[..|s| - 1][1..] == t[..|t| - 1];
    if |s| > 2 {
      LeadingZero(s[..|s| - 1]);
    } else {
      assert s[..|s| - 1] == "0";
    }
  }

  /** Without a leading zero, the digits are exactly `str` of their value. */
  lemma {:induction false} NatTextOfDecimalValue(s: string)
    requires |s| >= 1 && AllDigits(s) && (|s| > 1 ==> s[0] != '0')
    ensures NatText(DecimalValue(s)) == s
    decreases |s|
  {
    var p := s[..|s| - 1];
    if |s| == 1 {
      assert DecimalValue(s) == DigitValue(s[0]) by { assert p == []; }
    } else {
      assert p[0] == s[0];
      NatTextOfDecimalValue(p);
      NonZeroLead(p);
      assert s == p + [s[|s| - 1]];
    }
  }

  lemma {:induction false} NonZeroLead(s: string)
    requires |s| >= 1 && AllDigits(s) && s[0] != '0'
    ensures DecimalValue(s) >= 1
    decreases |s|
  {
    if |s| > 1 {
      var p := s[..|s| - 1];
      assert p[0] == s[0];
      NonZeroLead(p);
    }
  }

  lemma FormatDateOfDigits(y: string, m: string, d: string)
    requires |y| == 4 && |m| == 2 && |d| == 2 && AllDigits(y) && AllDigits(m) && AllDigits(d)
    requires ValidDate(Date(DecimalValue(y), DecimalValue(m), DecimalValue(d)))
    ensures FormatDate(Date(DecimalValue(y), DecimalValue(m), DecimalValue(d))) == y + m + d
  {
    PaddedOfDecimalValue(y);
    PaddedOfDecimalValue(m);
    PaddedOfDecimalValue(d);
  }

  // ---------------------------------------------------------------------
  // Round trip: a rendered name reads back.
  // ---------------------------------------------------------------------

  /** The groups that a rendered file name is expected to match to. */
  function RenderedGroups(name: string, date: Date, millis: nat, rand: string): Groups
    requires ValidDate(date)
  {
    Groups(name, Padded(date.year, 4), Padded(date.month, 2), Padded(date.day, 2), NatText(millis), rand)
  }

  /**
    A rendered file name matches the parse pattern with exactly the fields it was
    rendered from, when the task name holds no `_` (so that the lazy name group
    cannot stop early) and no newline, and the random part is six characters
    none of which is a newline.
  */
  lemma RenderedNameMatches(name: string, date: Date, millis: nat, rand: string)
    requires '_' !in name && NoNewline(name) && ValidDate(date) && |rand| == 6 && NoNewline(rand)
    ensures Match(ArchiveFileName(name, date, millis, rand)) == Some(RenderedGroups(name, date, millis, rand))
  {
    var s := ArchiveFileName(name, date, millis, rand);
    var k, j := |name|, |NatText(millis)|;
    RenderedMatchesAt(name, date, millis, rand);
    forall k': nat, j': nat | k' < k ensures !MatchesAt(s, k', j') {
      assert s[..k] == name;
      assert s[k'] == name[k'];
    }
    var r := Match(s);
    assert |r.value.name| == k;
    MillisLengthUnique(s, k, |r.value.millis|);
    MillisLengthUnique(s, k, j);
  }

  /** The pattern matches a rendered name at the fields it was rendered from. */
  lemma RenderedMatchesAt(name: string, date: Date, millis: nat, rand: string)
    requires NoNewline(name) && ValidDate(date) && |rand| == 6 && NoNewline(rand)
    ensures MatchesAt(ArchiveFileName(name, date, millis, rand), |name|, |NatText(millis)|)
    ensures GroupsAt(ArchiveFileName(name, date, millis, rand), |name|, |NatText(millis)|) == RenderedGroups(name, date, millis, rand)
  {
    var fd, mt := FormatDate(date), NatText(millis);
    LayoutMatches(name, fd, mt, rand);
    assert ArchiveFileName(name, date, millis, rand) == name + "_" + fd + "_" + mt + "_" + rand + ZipSuffix;
    assert fd[..4] == Padded(date.year, 4) && fd[4..6] == Padded(date.month, 2) && fd[6..] == Padded(date.day, 2);
  }

  /** Any text laid out as the pattern expects matches it, with the groups it was laid out from. */
  lemma LayoutMatches(name: string, fd: string, mt: string, rand: string)
    requires NoNewline(name) && |fd| == 8 && AllDigits(fd) && |mt| >= 1 && AllDigits(mt)
    requires |rand| == 6 && NoNewline(rand)
    ensures var s := name + "_" + fd + "_" + mt + "_" + rand + ZipSuffix;
      && MatchesAt(s, |name|, |mt|)
      && GroupsAt(s, |name|, |mt|) == Groups(name, fd[..4], fd[4..6], fd[6..], mt, rand)
  {
    var s := name + "_" + fd + "_" + mt + "_" + rand + ZipSuffix;
    var k, j := |name|, |mt|;
    RenderedLayout(name, fd, mt, rand);
    assert SuffixMatches(ZipSuffix);
    assert MatchesAt(s, k, j);
    SubSlice(s, k + 1, k + 9, k + 1, k + 5);
    SubSlice(s, k + 1, k + 9, k + 5, k + 7);
    SubSlice(s, k + 1, k + 9, k + 7, k + 9);
  }

  lemma SubSlice<T>(s: seq<T>, a: nat, b: nat, c: nat, d: nat)
    requires a <= c <= d <= b <= |s|
    ensures s[c..d] == s[a..b][c - a..d - a]
  {
    assert forall i | 0 <= i < d - c :: s[c..d][i] == s[c + i] == s[a..b][c - a + i];
  }

  /** Where each field sits in a rendered name. */
  lemma RenderedLayout(name: string, fd: string, mt: string, rand: string)
    requires |fd| == 8 && |rand| == 6
    ensures var s, k, j := name + "_" + fd + "_" + mt + "_" + rand + ZipSuffix, |name|, |mt|;
      && |s| == k + j + 29
      && s[..k] == name && s[k] == '_' && s[k + 1..k + 9] == fd && s[k + 9] == '_'
      && s[k + 10..k + 10 + j] == mt && s[k + 10 + j] == '_'
      && s[k + 11 + j..k + 17 + j] == rand && s[k + 17 + j..k + 29 + j] == ZipSuffix
  {
    var a := name + "_";
    var b := a + fd + "_";
    var c := b + mt + "_";
    var s := c + rand + ZipSuffix;
    assert s == name + "_" + fd + "_" + mt + "_" + rand + ZipSuffix;
    var k, j := |name|, |mt|;
    assert s[..|c|] == c;
    assert c[..|b|] == b;
    assert b[..|a|] == a;
    assert a[..k] == name;
    assert b[|a|..|a| + 8] == fd;
    assert c[|b|..|b| + j] == mt;
    assert s[|c|..|c| + 6] == rand;
    assert s[|c| + 6..] == ZipSuffix;
  }

  /**
    Rendering then parsing gives back the date and the milliseconds exactly:
    `_parse_filename_to_date` and `_parse_filename_to_millis` invert the
    `ARCHIVE_PATTERN` rendering for non-negative millis.
  */
  lemma RoundTrip(name: string, date: Date, millis: int, rand: string)
    requires '_' !in name && NoNewline(name) && ValidDate(date) && millis >= 0 && |rand| == 6 && NoNewline(rand)
    ensures ParseFilenameToDate(ArchiveFileName(name, date, millis, rand)) == Parsed(date)
    ensures ParseFilenameToMillis(ArchiveFileName(name, date, millis, rand)) == Some(millis)
  {
    RenderedNameMatches(name, date, millis, rand);
    assert Pow10(4) == 10000 && Pow10(2) == 100;
    DecimalValueOfPadded(date.year, 4);
    DecimalValueOfPadded(date.month, 2);
    DecimalValueOfPadded(date.day, 2);
    DecimalValueOfNatText(millis);
  }

  // ---------------------------------------------------------------------
  // A directory in front of the name: `_clean_archive` parses the millis of
  // the whole path that glob returned, not of its base name.
  // ---------------------------------------------------------------------

  lemma MatchesAtShifted(p: string, s: string, k: nat, j: nat)
    requires NoNewline(p)
    ensures MatchesAt(p + s, |p| + k, j) <==> MatchesAt(s, k, j)
    ensures MatchesAt(s, k, j) ==> GroupsAt(p + s, |p| + k, j) == GroupsAt(s, k, j).(name := p + s[..k])
  {
    var t, n := p + s, |p|;
    if k + j + 29 <= |s| {
      assert t[..n + k] == p + s[..k];
      NoNewlineConcat(p, s[..k]);
      assert t[n + k + 1..n + k + 9] == s[k + 1..k + 9];
      assert t[n + k + 10..n + k + 10 + j] == s[k + 10..k + 10 + j];
      assert t[n + k + 11 + j..n + k + 17 + j] == s[k + 11 + j..k + 17 + j];
      assert t[n + k + 17 + j..n + k + 29 + j] == s[k + 17 + j..k + 29 + j];
      assert t[n + k] == s[k] && t[n + k + 9] == s[k + 9] && t[n + k + 10 + j] == s[k + 10 + j];
      if MatchesAt(s, k, j) {
        assert t[n + k + 1..n + k + 5] == s[k + 1..k + 5];
        assert t[n + k + 5..n + k + 7] == s[k + 5..k + 7];
        assert t[n + k + 7..n + k + 9] == s[k + 7..k + 9];
      }
    }
  }

  lemma NoNewlineConcat(a: string, b: string)
    ensures NoNewline(a + b) <==> NoNewline(a) && NoNewline(b)
  {
    if NoNewline(a + b) {
      assert forall i | 0 <= i < |a| :: a[i] == (a + b)[i];
      assert forall i | 0 <= i < |b| :: b[i] == (a + b)[|a| + i];
    }
  }

  /** Under a prefix without `_` the pattern can only match past the prefix, where it matches as in `s`. */
  lemma PrefixShiftsMatches(p: string, s: string)
    requires '_' !in p && NoNewline(p)
    ensures forall k: nat, j: nat | k < |p| :: !MatchesAt(p + s, k, j)
    ensures forall k: nat, j: nat | |p| <= k :: MatchesAt(p + s, k, j) <==> MatchesAt(s, k - |p|, j)
  {
    var t, n := p + s, |p|;
    forall k: nat, j: nat | k < n ensures !MatchesAt(t, k, j) {
      assert t[k] == p[k];
    }
    forall k: nat, j: nat | n <= k ensures MatchesAt(t, k, j) <==> MatchesAt(s, k - n, j) {
      MatchesAtShifted(p, s, k - n, j);
    }
  }

  /**
    A prefix without `_` or newline is absorbed by the lazy name group: the
    match of `p + s` is the match of `s` with `p` in front of its name, and
    there is none when `s` has none.
  */
  lemma MatchUnderPrefix(p: string, s: string)
    requires '_' !in p && NoNewline(p)
    ensures Match(s).None? ==> Match(p + s).None?
    ensures Match(s).Some? ==> Match(p + s) == Some(Match(s).value.(name := p + Match(s).value.name))
  {
    PrefixShiftsMatches(p, s);
    if Match(s).None? {
      forall k: nat, j: nat ensures !MatchesAt(p + s, k, j) {
        if |p| <= k {
          assert !MatchesAt(s, k - |p|, j);
        }
      }
    } else {
      MatchUnderPrefixSome(p, s);
    }
  }

  lemma MatchUnderPrefixSome(p: string, s: string)
    requires '_' !in p && NoNewline(p) && Match(s).Some?
    requires forall k: nat, j: nat | k < |p| :: !MatchesAt(p + s, k, j)
    requires forall k: nat, j: nat | |p| <= k :: MatchesAt(p + s, k, j) <==> MatchesAt(s, k - |p|, j)
    ensures Match(p + s) == Some(Match(s).value.(name := p + Match(s).value.name))
  {
    var t, n := p + s, |p|;
    var g := Match(s).value;
    MatchesAtShifted(p, s, |g.name|, |g.millis|);
    var r := Match(t);
    var K, J := |r.value.name|, |r.value.millis|;
    assert MatchesAt(s, K - n, J);
    assert K == n + |g.name|;
    MillisLengthUnique(s, |g.name|, |g.millis|);
    MillisLengthUnique(s, |g.name|, J);
    MatchesAtShifted(p, s, |g.name|, J);
  }

  /** Hence the milliseconds read from a path equal those of its base name when the text in front has no `_` or newline. */
  lemma MillisOfJoinedPath(dir: string, base: string)
    requires '_' !in dir && NoNewline(dir)
    ensures ParseFilenameToMillis(dir + base) == ParseFilenameToMillis(base)
  {
    MatchUnderPrefix(dir, base);
  }

  // ---------------------------------------------------------------------
  // The round trip's conditions are needed.
  // ---------------------------------------------------------------------

  /** A match can only begin at a `_` followed by digits at two fixed distances. */
  lemma MatchNeedsSeparator(s: string, k: nat, j: nat)
    ensures MatchesAt(s, k, j) ==> s[k] == '_' && IsDigit(s[k + 1]) && IsDigit(s[k + 8]) && IsDigit(s[k + 10])
  {
    if MatchesAt(s, k, j) {
      assert s[k + 10..k + 10 + j][0] == s[k + 10];
      assert s[k + 1..k + 9][0] == s[k + 1];
      assert s[k + 1..k + 9][7] == s[k + 8];
    }
  }

  /**
    A negative millisecond count renders with a minus sign, which `[0-9]+`
    rejects: neither parser reads such a name back (the random part is hex,
    so it holds no `_`).
  */
  lemma NegativeMillisNeverParse(name: string, date: Date, millis: int, rand: string)
    requires '_' !in name && ValidDate(date) && millis < 0 && |rand| == 6 && '_' !in rand
    ensures ParseFilenameToMillis(ArchiveFileName(name, date, millis, rand)).None?
    ensures ParseFilenameToDate(ArchiveFileName(name, date, millis, rand)).NoMatch?
  {
    var s := ArchiveFileName(name, date, millis, rand);
    var fd, mt := FormatDate(date), IntText(millis);
    assert s == name + "_" + fd + "_" + mt + "_" + rand + ZipSuffix;
    assert mt[0] == '-';
    forall k: nat, j: nat ensures !MatchesAt(s, k, j) {
      MatchNeedsSeparator(s, k, j);
      if k + 10 < |s| {
        NoMatchStart(s, name, fd, mt, rand, k);
      }
    }
  }

  /** In a name rendered with a signed millis, no `_` is followed by digits where the pattern wants them. */
  lemma NoMatchStart(s: string, name: string, fd: string, mt: string, rand: string, k: nat)
    requires s == name + "_" + fd + "_" + mt + "_" + rand + ZipSuffix
    requires '_' !in name && |fd| == 8 && AllDigits(fd) && |mt| >= 1 && mt[0] == '-' && '_' !in mt && |rand| == 6 && '_' !in rand
    requires k + 10 < |s|
    ensures s[k] != '_' || !IsDigit(s[k + 1]) || !IsDigit(s[k + 8]) || !IsDigit(s[k + 10])
  {
    var n, l := |name|, |mt|;
    RenderedLayout(name, fd, mt, rand);
    if k < n {
      assert s[k] == s[..n][k];
    } else if n < k < n + 9 {
      assert s[k] == s[n + 1..n + 9][k - n - 1];
    } else if n + 9 < k < n + 10 + l {
      assert s[k] == s[n + 10..n + 10 + l][k - n - 10];
    } else if n + 10 + l < k < n + 17 + l {
      assert s[k] == s[n + 11 + l..n + 17 + l][k - n - 11 - l];
    } else if n + 17 + l <= k {
      assert s[k] == s[n + 17 + l..n + 29 + l][k - n - 17 - l];
    } else if k == n + 10 + l {
      assert s[k + 8] == s[n + 17 + l..n + 29 + l][1];
    } else if k == n {
      assert s[k + 10] == s[n + 10..n + 10 + l][0];
    } else {
      assert s[k + 1] == s[n + 10..n + 10 + l][0];
    }
  }

  lemma MatchesAtExtended(t: string, u: string, k: nat, j: nat)
    requires MatchesAt(t, k, j)
    ensures MatchesAt(t + u, k, j) && GroupsAt(t + u, k, j) == GroupsAt(t, k, j)
  {
    var s := t + u;
    assert s[..k] == t[..k];
    assert s[k + 1..k + 9] == t[k + 1..k + 9];
    assert s[k + 1..k + 5] == t[k + 1..k + 5];
    assert s[k + 5..k + 7] == t[k + 5..k + 7];
    assert s[k + 7..k + 9] == t[k + 7..k + 9];
    assert s[k + 10..k + 10 + j] == t[k + 10..k + 10 + j];
    assert s[k + 11 + j..k + 17 + j] == t[k + 11 + j..k + 17 + j];
    assert s[k + 17 + j..k + 29 + j] == t[k + 17 + j..k + 29 + j];
  }

  /** The example task name below is itself a well-formed archive name. */
  lemma ExampleNameMatches()
    ensures MatchesAt("a_20000101_1_abcdef.archive.zip", 1, 1)
    ensures GroupsAt("a_20000101_1_abcdef.archive.zip", 1, 1) == Groups("a", "2000", "01", "01", "1", "abcdef")
  {
    ExampleFields();
    ExampleConcat();
    LayoutMatches("a", "20000101", "1", "abcdef");
  }

  lemma ExampleFields()
    ensures AllDigits("20000101") && AllDigits("1") && NoNewline("a") && NoNewline("abcdef")
    ensures "20000101"[..4] == "2000" && "20000101"[4..6] == "01" && "20000101"[6..] == "01"
  {
  }

  lemma ExampleConcat()
    ensures "a_20000101_1_abcdef.archive.zip" == "a" + "_" + "20000101" + "_" + "1" + "_" + "abcdef" + ZipSuffix
  {
  }

  /**
    With a `_` in the task name the round trip can fail: a task named
    `a_20000101_1_abcdef.archive.zip` has every archive read back as task
    `a` of 1 January 2000 with millis 1, whatever its real date and time.
  */
  lemma SeparatorInNameBreaksRoundTrip(date: Date, millis: nat, rand: string)
    requires ValidDate(date)
    ensures var s := ArchiveFileName("a_20000101_1_abcdef.archive.zip", date, millis, rand);
      && ParseFilenameToDate(s) == Parsed(Date(2000, 1, 1))
      && ParseFilenameToMillis(s) == Some(1)
  {
    var name := "a_20000101_1_abcdef.archive.zip";
    var s := ArchiveFileName(name, date, millis, rand);
    assert s[..31] == name;
    ExamplePrefixMatch(s);
    var g := Groups("a", "2000", "01", "01", "1", "abcdef");
    ExampleDigits();
    assert MatchedDate(g) == Date(2000, 1, 1);
  }

  lemma ExampleDigits()
    ensures DecimalValue("2000") == 2000 && DecimalValue("01") == 1 && DecimalValue("1") == 1
  {
    assert "2000"[..3] == "200" && "200"[..2] == "20" && "20"[..1] == "2" && "2"[..0] == "";
    assert "01"[..1] == "0" && "0"[..0] == "" && "1"[..0] == "";
  }

  /** Any string that starts with the example name matches at its first `_`. */
  lemma ExamplePrefixMatch(s: string)
    requires |s| >= 31 && s[..31] == "a_20000101_1_abcdef.archive.zip"
    ensures Match(s) == Some(Groups("a", "2000", "01", "01", "1", "abcdef"))
  {
    var name := s[..31];
    ExampleNameMatches();
    assert s == name + s[31..];
    MatchesAtExtended(name, s[31..], 1, 1);
    var r := Match(s);
    assert r.Some?;
    var g := r.value;
    assert |g.name| == 1 by {
      MatchNeedsSeparator(s, 0, |g.millis|);
      assert s[0] == 'a';
    }
    assert |g.millis| == 1 by {
      MillisLengthUnique(s, 1, |g.millis|);
      MillisLengthUnique(s, 1, 1);
    }
    assert g == Groups("a", "2000", "01", "01", "1", "abcdef");
  }
}
