/** The log viewer's tail (src/log.cgi.c, `handle_tail`): lines are split in place inside a buffer,
    the last matching ones are kept in a ring, and each is sent as a JSON string. */
module LogTail {
  import opened JsonString
  import opened Wrappers

  const MAX_LINES: nat := 500
  const MAX_LINE_CHARS: nat := 1000

  // ---------- what is to be shown ----------

  /** Index of the first occurrence of `c` from `from` on, or the length (`memchr`). */
  function IndexFrom(s: string, c: char, from: nat): (i: nat)
    requires from <= |s|
    ensures from <= i <= |s| && (i < |s| ==> s[i] == c) && forall j :: from <= j < i ==> s[j] != c
    decreases |s| - from
  {
    if from == |s| || s[from] == c then from else IndexFrom(s, c, from + 1)
  }

  /** The lines of a text from position `p` on; a last line needs no newline. */
  function LinesFrom(s: string, p: nat): seq<string>
    requires p <= |s|
    decreases |s| - p
  {
    if p == |s| then []
    else
      var i := IndexFrom(s, '\n', p);
      [s[p..i]] + if i < |s| then LinesFrom(s, i + 1) else []
  }

  function WithoutCr(line: string): string {
    if line != [] && line[|line| - 1] == '\r' then line[..|line| - 1] else line
  }

  /** `strstr` */
  predicate Contains(line: string, word: string) {
    exists i :: 0 <= i <= |line| && OccursAt(line, word, i)
  }

  predicate OccursAt(line: string, word: string, i: nat) {
    i + |word| <= |line| && line[i..i + |word|] == word
  }

  /** What C sees of a line: up to its first NUL. */
  function CString(line: string): (r: string)
    ensures |r| <= |line| && r == line[..|r|]
  {
    line[..IndexFrom(line, 0 as char, 0)]
  }

  /** A line without NUL is seen whole. */
  lemma CStringOfText(line: string)
    requires 0 as char !in line
    ensures CString(line) == line
  {
  }

  predicate Matches(line: string, grep: string) { grep == [] || Contains(CString(line), grep) }

  function Capped(line: string): string {
    if |line| > MAX_LINE_CHARS then line[..MAX_LINE_CHARS] else line
  }

  /** The matching lines, each without its carriage return and cut to the maximum width. */
  function Matching(lines: seq<string>, grep: string): seq<string> {
    if lines == [] then []
    else
      var line := WithoutCr(lines[0]);
      (if Matches(line, grep) then [Capped(line)] else []) + Matching(lines[1..], grep)
  }

  /** Where the first whole line of a window starts: a window cut out of a longer file begins with a
      partial line, which is dropped. */
  function FirstLine(s: string, windowed: bool): (p: nat)
    ensures p <= |s|
  {
    if !windowed then 0
    else
      var i := IndexFrom(s, '\n', 0);
      if i < |s| then i + 1 else |s|
  }

  function LastOf<T>(items: seq<T>, want: nat): seq<T> {
    if |items| <= want then items else items[|items| - want..]
  }

  // ---------- the ring ----------

  /** Ring positions, in steps below twice the size. */
  function Turn(x: nat, want: nat): nat {
    if x >= want then x - want else x
  }

  function Base(ring: nat, n: nat, want: nat): nat {
    if n == want then ring else 0
  }

  ghost predicate SlotShows<T>(slots: seq<T>, ring: nat, n: nat, want: nat, items: seq<T>, i: nat) {
    var at := Turn(Base(ring, n, want) + i, want);
    i < n <= |items| ==> at < |slots| && slots[at] == items[|items| - n + i]
  }

  /** The slots show the last `want` of all items put so far, oldest at the base. */
  ghost predicate RingShows<T>(slots: seq<T>, ring: nat, n: nat, want: nat, items: seq<T>) {
    0 < want <= |slots| && ring < want && n == (if |items| < want then |items| else want) &&
    (n < want ==> ring == n) &&
    forall i: nat :: SlotShows(slots, ring, n, want, items, i)
  }

  lemma RingPut<T>(slots: seq<T>, ring: nat, n: nat, want: nat, items: seq<T>, x: T)
    requires RingShows(slots, ring, n, want, items)
    ensures RingShows(slots[ring := x], Turn(ring + 1, want), if n < want then n + 1 else n, want, items + [x])
  {
    var n' := if n < want then n + 1 else n;
    var slots', ring', items' := slots[ring := x], Turn(ring + 1, want), items + [x];
    forall i: nat ensures SlotShows(slots', ring', n', want, items', i) {
      assert SlotShows(slots, ring, n, want, items, if n == want then i + 1 else i);
    }
  }

  lemma TurnIsMod(x: nat, want: nat)
    requires 0 < want && x < 2 * want
    ensures x % want == Turn(x, want)
  {
    if x >= want {
      ModOf(x, want, 1, x - want);
    } else {
      ModOf(x, want, 0, x);
    }
  }

  lemma ModOf(x: nat, m: nat, q: nat, r: nat)
    requires m > 0 && x == q * m + r && r < m && q <= 1
    ensures x % m == r
  {
    if q == 0 {
      assert x < m;
    } else {
      assert x - m < m;
    }
  }

  // ---------- the code ----------

  /** Where a kept line starts in the buffer and how long it is. */
  datatype Mark = Mark(at: nat, length: nat)

  ghost predicate MarkOk(buf: seq<char>, p: nat, mark: Mark, text: string) {
    mark.at + mark.length <= p <= |buf| && buf[mark.at..mark.at + mark.length] == text && |text| <= MAX_LINE_CHARS
  }

  /** The kept lines are still in the buffer, before position `p`. */
  ghost predicate InBuffer(buf: seq<char>, p: nat, marks: seq<Mark>, texts: seq<string>) {
    |marks| == |texts| && forall k :: 0 <= k < |marks| ==> MarkOk(buf, p, marks[k], texts[k])
  }

  lemma MarkStays(buf: seq<char>, buf': seq<char>, p: nat, p': nat, mark: Mark, text: string)
    requires MarkOk(buf, p, mark, text) && p <= p' <= |buf'| && buf[..p] == buf'[..p]
    ensures MarkOk(buf', p', mark, text)
  {
    var a, b := mark.at, mark.at + mark.length;
    assert buf[a..b] == buf[..p][a..b] && buf'[a..b] == buf'[..p][a..b];
  }

  /** Writes at or after `p` leave the kept lines alone. */
  lemma StillInBuffer(buf: seq<char>, buf': seq<char>, p: nat, p': nat, marks: seq<Mark>, texts: seq<string>)
    requires InBuffer(buf, p, marks, texts) && p <= p' <= |buf'| && p <= |buf| && buf[..p] == buf'[..p]
    ensures InBuffer(buf', p', marks, texts)
  {
    forall k | 0 <= k < |marks| ensures MarkOk(buf', p', marks[k], texts[k]) {
      MarkStays(buf, buf', p, p', marks[k], texts[k]);
    }
  }

  /** `memchr` sees the same first newline in the buffer as in the text it held at first. */
  lemma SameIndex(s: string, s': string, c: char, from: nat)
    requires from <= |s| == |s'| && s[from..] == s'[from..]
    ensures IndexFrom(s, c, from) == IndexFrom(s', c, from)
  {
    var i, i' := IndexFrom(s, c, from), IndexFrom(s', c, from);
    assert forall j :: from <= j < |s| ==> s[j] == s[from..][j - from] && s'[j] == s'[from..][j - from];
  }

  /** The line that starts at `p`, and where the next one starts. */
  function LineAt(s: string, p: nat): string
    requires p < |s|
  {
    WithoutCr(s[p..IndexFrom(s, '\n', p)])
  }

  function NextAt(s: string, p: nat): (p': nat)
    requires p < |s|
    ensures p < p' <= |s|
  {
    var nl := IndexFrom(s, '\n', p);
    if nl < |s| then nl + 1 else |s|
  }

  lemma NextLine(s: string, p: nat, grep: string, done: seq<string>)
    requires p < |s|
    ensures var line := LineAt(s, p);
      done + Matching(LinesFrom(s, p), grep) ==
        (if Matches(line, grep) then done + [Capped(line)] else done) + Matching(LinesFrom(s, NextAt(s, p)), grep)
  {
    hide Matches, Capped, WithoutCr;
    var nl := IndexFrom(s, '\n', p);
    var lines := LinesFrom(s, p);
    assert lines[1..] == LinesFrom(s, NextAt(s, p));
  }

  /** How far the loop has come: the rest of the window is untouched, the kept lines are in place, and
      they are the matching ones of the lines passed. */
  ghost predicate Progress(buf: seq<char>, text: string, first: nat, p: nat, grep: string,
                           marks: seq<Mark>, texts: seq<string>) {
    |buf| == |text| && first <= |text| && p <= |text| && buf[p..] == text[p..] &&
    InBuffer(buf, p, marks, texts) &&
    texts + Matching(LinesFrom(text, p), grep) == Matching(LinesFrom(text, first), grep)
  }

  lemma ProgressStep(buf: seq<char>, buf': seq<char>, text: string, first: nat, p: nat, length: nat, grep: string,
                     marks: seq<Mark>, texts: seq<string>)
    requires Progress(buf, text, first, p, grep, marks, texts) && p < |text| == |buf'|
    requires p + length <= NextAt(text, p) && buf'[p..p + length] == LineAt(text, p)
    requires buf'[..p] == buf[..p] && buf'[NextAt(text, p)..] == text[NextAt(text, p)..]
    ensures var line, next := LineAt(text, p), NextAt(text, p);
      if Matches(line, grep)
      then Progress(buf', text, first, next, grep, marks + [Mark(p, |Capped(line)|)], texts + [Capped(line)])
      else Progress(buf', text, first, next, grep, marks, texts)
  {
    hide Matching, LinesFrom, Matches, LineAt, NextAt;
    NextLine(text, p, grep, texts);
    var line, next := LineAt(text, p), NextAt(text, p);
    StillInBuffer(buf, buf', p, next, marks, texts);
    assert MarkOk(buf', next, Mark(p, |Capped(line)|), Capped(line)) by {
      assert buf'[p..p + |Capped(line)|] == buf'[p..p + length][..|Capped(line)|];
    }
  }

  /** End the line that runs from `p` to `nl` inside the buffer: a NUL over the newline and over a
      final carriage return. */
  method CutLine(buf: array<char>, nread: nat, p: nat, nl: nat) returns (length: nat)
    requires p <= nl <= nread < buf.Length
    modifies buf
    ensures p + length <= nl && buf[p..p + length] == WithoutCr(old(buf[p..nl]))
    ensures forall k :: 0 <= k < p || nl < k < nread ==> buf[k] == old(buf[k])
  {
    ghost var line := buf[p..nl];
    length := nl - p;
    if nl < nread {
      buf[nl] := 0 as char;
    }
    assert buf[p..p + length] == line;
    assert length > 0 ==> line[length - 1] == buf[p + length - 1];
    if length > 0 && buf[p + length - 1] == '\r' {
      length := length - 1;
      buf[p + length] := 0 as char;
    }
    assert buf[p..p + length] == line[..length];
  }

  /** One turn's cutting, seen on the window alone. */
  method TakeLine(buf: array<char>, nread: nat, p: nat, ghost text: string) returns (length: nat, next: nat)
    requires p < nread < buf.Length && |text| == nread && buf[..nread][p..] == text[p..]
    modifies buf
    ensures next == NextAt(text, p) && p + length <= next
    ensures buf[..nread][p..p + length] == LineAt(text, p)
    ensures buf[..nread][..p] == old(buf[..nread])[..p] && buf[..nread][next..] == text[next..]
  {
    ghost var before := buf[..nread];
    var nl := IndexFrom(buf[..nread], '\n', p);
    SameIndex(before, text, '\n', p);
    hide WithoutCr, IndexFrom, LineAt, NextAt;
    assert buf[p..nl] == before[p..nl];
    length := CutLine(buf, nread, p, nl);
    next := if nl < nread then nl + 1 else nread;
    ghost var after := buf[..nread];
    assert after[p..p + length] == buf[p..p + length];
    WindowAfterCut(before, after, text, p, nl, length);
  }

  /** What cutting the line that ends at `nl` does to the window. */
  lemma WindowAfterCut(before: string, after: string, text: string, p: nat, nl: nat, length: nat)
    requires p < |text| == |before| == |after| && before[p..] == text[p..] && nl == IndexFrom(text, '\n', p)
    requires p + length <= nl && after[p..p + length] == WithoutCr(before[p..nl])
    requires forall k :: 0 <= k < p || nl < k < |text| ==> after[k] == before[k]
    ensures NextAt(text, p) == (if nl < |text| then nl + 1 else |text|)
    ensures p + length <= NextAt(text, p) && after[p..p + length] == LineAt(text, p)
    ensures after[..p] == before[..p] && after[NextAt(text, p)..] == text[NextAt(text, p)..]
  {
    Suffix(before, text, p);
    assert before[p..nl] == text[p..nl];
    hide WithoutCr, IndexFrom;
  }

  lemma Suffix(s: string, s': string, p: nat)
    requires p <= |s| == |s'| && s[p..] == s'[p..]
    ensures forall k :: p <= k < |s| ==> s[k] == s'[k]
  {
    assert forall k :: p <= k < |s| ==> s[k] == s[p..][k - p] && s'[k] == s'[p..][k - p];
  }

  /** Put a mark into the next ring slot. */
  method PutMark(keep: array<Mark>, ring: nat, kept: nat, want: nat, mark: Mark, ghost marks: seq<Mark>)
    returns (ring': nat, kept': nat)
    requires RingShows(keep[..], ring, kept, want, marks)
    modifies keep
    ensures RingShows(keep[..], ring', kept', want, marks + [mark])
  {
    RingPut(keep[..], ring, kept, want, marks, mark);
    TurnIsMod(ring + 1, want);
    keep[ring] := mark;
    ring' := (ring + 1) % want;
    kept' := if kept < want then kept + 1 else kept;
  }

  /** One turn of the split-and-keep loop. */
  method KeepLine(buf: array<char>, nread: nat, p: nat, grep: string, keep: array<Mark>, ring: nat, kept: nat, want: nat,
                  ghost text: string, ghost first: nat, ghost marks: seq<Mark>, ghost texts: seq<string>)
    returns (next: nat, hit: bool, ring': nat, kept': nat, ghost marks': seq<Mark>, ghost texts': seq<string>)
    requires p < nread < buf.Length && |text| == nread && Progress(buf[..nread], text, first, p, grep, marks, texts)
    requires RingShows(keep[..], ring, kept, want, marks)
    modifies buf, keep
    ensures p < next <= nread && Progress(buf[..nread], text, first, next, grep, marks', texts')
    ensures RingShows(keep[..], ring', kept', want, marks') && |texts'| == |texts| + if hit then 1 else 0
  {
    hide *;
    ghost var before := buf[..nread];
    ProgressRest(before, text, first, p, grep, marks, texts);
    var length;
    length, next := TakeLine(buf, nread, p, text);
    ghost var after := buf[..nread];
    ProgressStep(before, after, text, first, p, length, grep, marks, texts);
    var line := buf[p..p + length];
    assert line == after[p..p + length];
    ring', kept', marks', texts' := ring, kept, marks, texts;
    hit := Matches(line, grep);
    if hit {
      var shown := Capped(line);
      ring', kept' := PutMark(keep, ring, kept, want, Mark(p, |shown|), marks);
      marks', texts' := marks + [Mark(p, |shown|)], texts + [shown];
    }
    assert buf[..nread] == after;
  }

  /** The split-and-keep loop. */
  method KeepMatching(buf: array<char>, nread: nat, windowed: bool, grep: string, want: nat)
    returns (keep: array<Mark>, ring: nat, kept: nat, matched: nat, ghost marks: seq<Mark>, ghost texts: seq<string>)
    requires nread < buf.Length && 1 <= want <= MAX_LINES
    modifies buf
    ensures fresh(keep) && keep.Length == MAX_LINES && matched == |texts|
    ensures texts == Matching(LinesFrom(old(buf[..nread]), FirstLine(old(buf[..nread]), windowed)), grep)
    ensures RingShows(keep[..], ring, kept, want, marks)
    ensures InBuffer(buf[..nread], nread, marks, texts)
  {
    ghost var text := buf[..nread];
    keep := new Mark[MAX_LINES](_ => Mark(0, 0));
    ring, kept, matched := 0, 0, 0;
    marks, texts := [], [];
    var p := FirstLine(buf[..nread], windowed);
    ghost var first := p;
    EmptyRing(keep[..], want);
    StartProgress(text, first, grep);
    hide *;
    while p < nread
      invariant p <= nread && Progress(buf[..nread], text, first, p, grep, marks, texts)
      invariant RingShows(keep[..], ring, kept, want, marks) && matched == |texts|
      decreases nread - p
    {
      var hit;
      p, hit, ring, kept, marks, texts := KeepLine(buf, nread, p, grep, keep, ring, kept, want, text, first, marks, texts);
      if hit {
        matched := matched + 1;
      }
    }
    EndProgress(buf[..nread], text, first, grep, marks, texts);
  }

  lemma StartProgress(text: string, first: nat, grep: string)
    requires first <= |text|
    ensures Progress(text, text, first, first, grep, [], [])
  {
    hide Matching, LinesFrom;
  }

  lemma ProgressRest(buf: seq<char>, text: string, first: nat, p: nat, grep: string, marks: seq<Mark>, texts: seq<string>)
    requires Progress(buf, text, first, p, grep, marks, texts)
    ensures |buf| == |text| && p <= |text| && buf[p..] == text[p..]
  {
  }

  lemma EndProgress(buf: seq<char>, text: string, first: nat, grep: string, marks: seq<Mark>, texts: seq<string>)
    requires Progress(buf, text, first, |text|, grep, marks, texts)
    ensures texts == Matching(LinesFrom(text, first), grep) && InBuffer(buf, |buf|, marks, texts)
  {
    NoMoreLines(text, grep);
    hide Matching, LinesFrom;
    assert texts + [] == texts;
  }

  lemma NoMoreLines(s: string, grep: string)
    ensures Matching(LinesFrom(s, |s|), grep) == []
  {
  }

  lemma EmptyRing(slots: seq<Mark>, want: nat)
    requires 0 < want <= |slots|
    ensures RingShows(slots, 0, 0, want, [])
  {
  }

  /** Copy one kept line out of the buffer and escape it; the escape buffer never cuts it. */
  method EscapeLine(window: string, mark: Mark, ghost text: string) returns (out: string)
    requires MarkOk(window, |window|, mark, text)
    ensures out == Escape(CString(text))
  {
    var tmp := CString(window[mark.at..mark.at + mark.length]);
    var esc := new char[MAX_LINE_CHARS * 2 + 8];
    var length, taken := JsonStr(tmp, esc);
    assert tmp[..taken] == tmp;
    out := esc[..length];
  }

  function Clamp(want: int): nat {
    if want < 1 then 1 else if want > MAX_LINES then MAX_LINES else want
  }

  function Shown(window: string, windowed: bool, grep: string): seq<string> {
    Matching(LinesFrom(window, FirstLine(window, windowed)), grep)
  }

  /** Read the ring's `i`-th item, oldest first. */
  method ReadRing(keep: seq<Mark>, ring: nat, kept: nat, want: nat, i: nat, ghost marks: seq<Mark>) returns (mark: Mark)
    requires RingShows(keep, ring, kept, want, marks) && i < kept
    ensures kept <= |marks| && mark == marks[|marks| - kept + i]
  {
    var base := if kept == want then ring else 0;
    TurnIsMod(base + i, want);
    assert SlotShows(keep, ring, kept, want, marks, i);
    mark := keep[(base + i) % want];
  }

  lemma MarksMatch(buf: seq<char>, p: nat, marks: seq<Mark>, texts: seq<string>)
    requires InBuffer(buf, p, marks, texts)
    ensures |marks| == |texts|
  {
  }

  lemma KeptMark(buf: seq<char>, p: nat, marks: seq<Mark>, texts: seq<string>, k: nat)
    requires InBuffer(buf, p, marks, texts) && k < |texts|
    ensures |marks| == |texts| && MarkOk(buf, p, marks[k], texts[k])
  {
  }

  lemma RingCount(slots: seq<Mark>, ring: nat, n: nat, want: nat, items: seq<Mark>, texts: seq<string>)
    requires RingShows(slots, ring, n, want, items) && |items| == |texts|
    ensures n == |LastOf(texts, want)| <= |texts|
    ensures forall i :: 0 <= i < n ==> LastOf(texts, want)[i] == texts[|texts| - n + i]
  {
  }

  function EscapeAll(lines: seq<string>): (r: seq<string>)
    ensures |r| == |lines|
  {
    if lines == [] then [] else EscapeAll(lines[..|lines| - 1]) + [Escape(CString(lines[|lines| - 1]))]
  }

  lemma NothingToEscape()
    ensures EscapeAll([]) == []
  {
  }

  lemma EscapeNext(lines: seq<string>, i: nat)
    requires i < |lines|
    ensures EscapeAll(lines[..i + 1]) == EscapeAll(lines[..i]) + [Escape(CString(lines[i]))]
  {
    hide Escape, CString;
    assert lines[..i + 1][..i] == lines[..i];
  }

  /** Every string of the answer decodes to its line. */
  lemma {:induction false} DecodeAll(lines: seq<string>)
    ensures forall i :: 0 <= i < |lines| ==> Decode(EscapeAll(lines)[i]) == Some(Sanitized(CString(lines[i])))
  {
    if lines != [] {
      hide Decode, Sanitized, Escape, CString;
      DecodeAll(lines[..|lines| - 1]);
      DecodeEscape(CString(lines[|lines| - 1]));
    }
  }

  /** The output loop: the ring read oldest first. */
  method EmitKept(window: string, keep: seq<Mark>, ring: nat, kept: nat, want: nat,
                  ghost marks: seq<Mark>, ghost texts: seq<string>) returns (out: seq<string>)
    requires RingShows(keep, ring, kept, want, marks) && InBuffer(window, |window|, marks, texts)
    ensures out == EscapeAll(LastOf(texts, want)) && |out| == kept
  {
    hide RingShows, Escape, CString, MarkOk, LastOf, InBuffer, EscapeAll;
    ghost var shown := LastOf(texts, want);
    MarksMatch(window, |window|, marks, texts);
    RingCount(keep, ring, kept, want, marks, texts);
    NothingToEscape();
    assert shown[..0] == [];
    out := [];
    for i := 0 to kept
      invariant out == EscapeAll(shown[..i])
    {
      EscapeNext(shown, i);
      var mark := ReadRing(keep, ring, kept, want, i, marks);
      KeptMark(window, |window|, marks, texts, |texts| - kept + i);
      var line := EscapeLine(window, mark, shown[i]);
      out := out + [line];
    }
    assert shown[..kept] == shown;
  }

  /** `handle_tail` on a window of `nread` bytes (and a place for its terminator): the strings sent are,
      in file order, the last min(want, matched) matching lines, and each decodes to its line, up to
      a NUL if the line has one. */
  method HandleTail(buf: array<char>, nread: nat, windowed: bool, keyword: string, lines: int)
    returns (out: seq<string>, matched: nat, truncated: bool)
    requires nread < buf.Length
    modifies buf
    ensures var all := Shown(old(buf[..nread]), windowed, if |keyword| > 64 then keyword[..64] else keyword);
      var sent := LastOf(all, if lines < 1 then 1 else if lines > 500 then 500 else lines);
      matched == |all| && out == EscapeAll(sent) && (truncated <==> matched > |out|) &&
      forall i :: 0 <= i < |sent| ==> Decode(out[i]) == Some(Sanitized(CString(sent[i])))
  {
    hide RingShows, InBuffer, Matching, LinesFrom, FirstLine, Decode, EscapeAll, Sanitized;
    var want := Clamp(lines);
    var grep := if |keyword| > 64 then keyword[..64] else keyword;
    var keep, ring, kept, total, marks, texts := KeepMatching(buf, nread, windowed, grep, want);
    out := EmitKept(buf[..nread], keep[..], ring, kept, want, marks, texts);
    DecodeAll(LastOf(texts, want));
    matched := total;
    truncated := matched > kept;
  }
}
