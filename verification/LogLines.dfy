/** What the notions of the log tail mean: splitting into lines is undone by joining, matching is
    containing, and the rest are cuts at known places. */
module LogLines {
  import opened LogTail

  /** The lines put together again, each with its newline. */
  ghost function Together(lines: seq<string>): string {
    if lines == [] then [] else lines[0] + ['\n'] + Together(lines[1..])
  }

  lemma NextOf(s: string, p: nat)
    requires p < |s|
    ensures var i := IndexFrom(s, '\n', p);
      Together(LinesFrom(s, p)) == s[p..i] + ['\n'] + if i < |s| then Together(LinesFrom(s, i + 1)) else []
    ensures LinesFrom(s, p) != [] && LinesFrom(s, p)[0] == s[p..IndexFrom(s, '\n', p)]
  {
    hide IndexFrom;
    var i, lines := IndexFrom(s, '\n', p), LinesFrom(s, p);
    assert i < |s| ==> lines[1..] == LinesFrom(s, i + 1);
    assert i == |s| ==> lines[1..] == [];
  }

  /** The newline that the last line lacks, if it does. */
  function Missing(s: string, p: nat): string {
    if p < |s| && s[|s| - 1] != '\n' then ['\n'] else []
  }

  /** The lines from `p` on, each with a newline, are the text from `p` on; a newline is added only if
      the last line had none. */
  lemma {:induction false} LinesTogether(s: string, p: nat)
    requires p <= |s|
    ensures Together(LinesFrom(s, p)) == s[p..] + Missing(s, p)
    decreases |s| - p
  {
    hide LinesFrom, Together, Missing;
    if p < |s| {
      var i := IndexFrom(s, '\n', p);
      NextOf(s, p);
      if i < |s| {
        LinesTogether(s, i + 1);
        Rejoin(s, p, i);
      } else {
        LastLine(s, p);
      }
    } else {
      NoLines(s);
    }
  }

  lemma NoLines(s: string)
    ensures Together(LinesFrom(s, |s|)) == s[|s|..] + Missing(s, |s|)
  {
  }

  lemma LastLine(s: string, p: nat)
    requires p < |s| && IndexFrom(s, '\n', p) == |s|
    ensures s[p..|s|] + ['\n'] + [] == s[p..] + Missing(s, p)
  {
    assert s[p..|s|] == s[p..];
  }

  lemma Rejoin(s: string, p: nat, i: nat)
    requires p <= i < |s| && s[i] == '\n'
    ensures s[p..i] + ['\n'] + (s[i + 1..] + Missing(s, i + 1)) == s[p..] + Missing(s, p)
  {
    var rest := s[i + 1..];
    assert s[p..] == s[p..i] + ['\n'] + rest;
    assert Missing(s, i + 1) == Missing(s, p);
    hide Missing;
    Reassociate(s[p..i] + ['\n'], rest, Missing(s, p));
  }

  lemma Reassociate(a: string, b: string, c: string)
    ensures a + (b + c) == a + b + c
  {
  }

  /** No line holds a newline. */
  lemma {:induction false} LinesHaveNoNewline(s: string, p: nat, k: nat)
    requires p <= |s| && k < |LinesFrom(s, p)|
    ensures '\n' !in LinesFrom(s, p)[k]
    decreases |s| - p
  {
    var i := IndexFrom(s, '\n', p);
    if k > 0 {
      LinesHaveNoNewline(s, i + 1, k - 1);
    } else {
      assert forall j :: 0 <= j < i - p ==> s[p..i][j] == s[p + j];
    }
  }

  /** At most one carriage return goes, from the end. */
  lemma CrIs(line: string)
    ensures WithoutCr(line + ['\r']) == line
    ensures line == [] || line[|line| - 1] != '\r' ==> WithoutCr(line) == line
  {
  }

  /** A line is cut to its first thousand characters, and only if it is longer. */
  lemma CappedIs(line: string)
    ensures |Capped(line)| == (if |line| < 1000 then |line| else 1000) && Capped(line) == line[..|Capped(line)|]
  {
  }

  /** A line is seen up to its first NUL. */
  lemma CStringIs(line: string)
    ensures 0 as char !in CString(line)
    ensures |CString(line)| < |line| ==> line[|CString(line)|] == 0 as char
  {
    var i := IndexFrom(line, 0 as char, 0);
    assert forall j :: 0 <= j < i ==> line[..i][j] == line[j];
  }

  /** A window inside a file starts after its first newline, or has no whole line. */
  lemma FirstLineIs(s: string)
    ensures FirstLine(s, false) == 0
    ensures var p := FirstLine(s, true);
      if '\n' in s then p > 0 && s[p - 1] == '\n' && '\n' !in s[..p - 1] else p == |s|
  {
    var i := IndexFrom(s, '\n', 0);
    assert forall j :: 0 <= j < i ==> s[..i][j] == s[j];
    if '\n' in s {
      var k :| 0 <= k < |s| && s[k] == '\n';
    }
  }

  ghost predicate IsSplit(line: string, before: string, word: string, behind: string) {
    line == before + word + behind
  }

  /** A line matches a nonempty word exactly if, as C sees it, it is something, the word and something;
      without a word every line matches. */
  lemma MatchesIff(line: string, grep: string)
    ensures Matches(line, grep) <==> grep == [] || exists a, b :: IsSplit(CString(line), a, grep, b)
  {
    hide CString;
    var seen := CString(line);
    if Contains(seen, grep) {
      var i :| 0 <= i <= |seen| && OccursAt(seen, grep, i);
      assert IsSplit(seen, seen[..i], grep, seen[i + |grep|..]);
    }
    forall a, b | IsSplit(seen, a, grep, b) ensures Contains(seen, grep) {
      assert OccursAt(seen, grep, |a|);
    }
  }

  /** What one line contributes: itself, stripped and cut, if it matches. */
  ghost function Contribution(line: string, grep: string): seq<string> {
    if Matches(WithoutCr(line), grep) then [Capped(WithoutCr(line))] else []
  }

  lemma MatchingCons(lines: seq<string>, grep: string)
    requires lines != []
    ensures Matching(lines, grep) == Contribution(lines[0], grep) + Matching(lines[1..], grep)
  {
    hide Matches, Capped, WithoutCr;
  }

  /** Matching goes line by line, in order. */
  lemma {:induction false} MatchingSnoc(lines: seq<string>, line: string, grep: string)
    ensures Matching([], grep) == []
    ensures Matching(lines + [line], grep) == Matching(lines, grep) + Contribution(line, grep)
  {
    NothingMatches(grep);
    hide Matching, Contribution;
    var longer := lines + [line];
    MatchingCons(longer, grep);
    if lines == [] {
      assert longer == [line] && longer[1..] == [];
    } else {
      MatchingSnoc(lines[1..], line, grep);
      MatchingCons(lines, grep);
      assert longer[1..] == lines[1..] + [line] && longer[0] == lines[0];
    }
  }

  lemma NothingMatches(grep: string)
    ensures Matching([], grep) == []
  {
  }

  /** The last `want` items, or all of them. */
  lemma LastIs<T>(items: seq<T>, want: nat)
    ensures var last := LastOf(items, want);
      |last| == (if |items| < want then |items| else want) && last == items[|items| - |last|..]
  {
  }
}
