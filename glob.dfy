/**
  File-name masks as `fnmatch.fnmatch` reads them on POSIX (case-sensitive),
  restricted to `*` (any run of characters), `?` (any one character) and
  literal characters.
*/
module Glob {

  predicate IsLiteral(pat: string) {
    forall i | 0 <= i < |pat| :: pat[i] != '*' && pat[i] != '?'
  }

  /** Whether the whole of `name` matches the mask `pat`. */
  function Matches(pat: string, name: string): bool
    decreases |pat| + |name|
  {
    if |pat| == 0 then |name| == 0
    else if pat[0] == '*' then Matches(pat[1..], name) || (|name| > 0 && Matches(pat, name[1..]))
    else |name| > 0 && (pat[0] == '?' || pat[0] == name[0]) && Matches(pat[1..], name[1..])
  }

  /** The default mask `'*'` selects every file. */
  lemma {:induction false} StarMatchesAll(name: string)
    ensures Matches("*", name)
    decreases |name|
  {
    if |name| > 0 {
      StarMatchesAll(name[1..]);
    }
  }

  /** A mask without wildcards matches exactly the name it spells. */
  lemma {:induction false} LiteralMatchesItself(pat: string, name: string)
    requires IsLiteral(pat)
    ensures Matches(pat, name) <==> pat == name
    decreases |pat|
  {
    if |pat| > 0 && |name| > 0 {
      LiteralMatchesItself(pat[1..], name[1..]);
      if pat[0] == name[0] && pat[1..] == name[1..] {
        assert pat == [pat[0]] + pat[1..] && name == [name[0]] + name[1..];
      }
    }
  }

  /** `*` followed by a literal tail matches exactly the names ending in that tail. */
  lemma {:induction false} StarSuffixMatches(tail: string, name: string)
    requires IsLiteral(tail)
    ensures Matches("*" + tail, name) <==> |tail| <= |name| && name[|name| - |tail|..] == tail
    decreases |name|
  {
    var pat := "*" + tail;
    assert pat[1..] == tail;
    LiteralMatchesItself(tail, name);
    if |name| > 0 {
      StarSuffixMatches(tail, name[1..]);
      if |tail| <= |name| - 1 {
        assert name[1..][|name| - 1 - |tail|..] == name[|name| - |tail|..];
      }
    } else {
      assert |tail| <= |name| ==> tail == [];
    }
  }

  /** With the mask `*.txt`, of the names `a.txt`, `b.log` and `c.TXT` only `a.txt` matches. */
  lemma TxtMaskExample()
    ensures Matches("*.txt", "a.txt") && !Matches("*.txt", "b.log") && !Matches("*.txt", "c.TXT")
  {
    assert "*.txt" == "*" + ".txt";
    StarSuffixMatches(".txt", "a.txt");
    StarSuffixMatches(".txt", "b.log");
    StarSuffixMatches(".txt", "c.TXT");
    assert "a.txt"[1..] == ".txt";
    assert "b.log"[1..] == ".log";
    assert "c.TXT"[1..] == ".TXT";
  }
}
