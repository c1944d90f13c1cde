/** The JSON string escaper of src/log.cgi.c against the string grammar of RFC 8259, section 7. */
module JsonString {
  import opened Wrappers

  /** What the escaper writes for one character. */
  function Escaped(c: char): (e: string)
    ensures 1 <= |e| <= 2
  {
    if c == '"' then ['\\', '"']
    else if c == '\\' then ['\\', '\\']
    else if c == '\n' then ['\\', 'n']
    else if c == '\r' then ['\\', 'r']
    else if c == '\t' then ['\\', 't']
    else if c < ' ' then [' ']
    else [c]
  }

  function Escape(s: string): (t: string)
    ensures |t| <= 2 * |s|
  {
    if s == [] then [] else Escape(s[..|s| - 1]) + Escaped(s[|s| - 1])
  }

  /** The character after a backslash; \uXXXX, which the escaper never writes, is not decoded. */
  function Unescaped(c: char): Option<char> {
    if c == '"' || c == '\\' || c == '/' then Some(c)
    else if c == 'b' then Some(8 as char)
    else if c == 'f' then Some(12 as char)
    else if c == 'n' then Some('\n')
    else if c == 'r' then Some('\r')
    else if c == 't' then Some('\t')
    else None
  }

  /** The text between the quotes of a JSON string: quotes and control characters must be escaped. */
  function Decode(t: string): Option<string>
    decreases |t|
  {
    if t == [] then Some([])
    else if t[0] == '\\' then
      if |t| < 2 || Unescaped(t[1]).None? then None
      else
        match Decode(t[2..])
        case None => None
        case Some(rest) => Some([Unescaped(t[1]).value] + rest)
    else if t[0] == '"' || t[0] < ' ' then None
    else
      match Decode(t[1..])
      case None => None
      case Some(rest) => Some([t[0]] + rest)
  }

  /** Control characters without an escape of their own become spaces. */
  function Plain(c: char): char {
    if c < ' ' && c != '\n' && c != '\r' && c != '\t' then ' ' else c
  }

  function Sanitized(s: string): (r: string)
    ensures |r| == |s|
  {
    seq(|s|, i requires 0 <= i < |s| => Plain(s[i]))
  }

  /** Only control characters other than newline, return and tab are lost. */
  lemma SanitizedIs(s: string, i: nat)
    requires i < |s|
    ensures Sanitized(s)[i] ==
      if s[i] == '\n' || s[i] == '\r' || s[i] == '\t' || s[i] >= ' ' then s[i] else ' '
  {
  }

  lemma DecodeOne(c: char, rest: string)
    ensures Decode(Escaped(c) + rest) ==
      match Decode(rest) case None => None case Some(r) => Some([Plain(c)] + r)
  {
    var t := Escaped(c) + rest;
    if |Escaped(c)| == 2 {
      assert t[2..] == rest;
    } else {
      assert t[1..] == rest;
    }
  }

  lemma {:induction false} DecodePrefix(s: string, rest: string)
    ensures Decode(Escape(s) + rest) ==
      match Decode(rest) case None => None case Some(r) => Some(Sanitized(s) + r)
  {
    hide Decode, Escaped, Plain;
    if s == [] {
      assert Escape(s) + rest == rest;
      assert Decode(rest).Some? ==> Sanitized(s) + Decode(rest).value == Decode(rest).value;
    } else {
      var front, c := s[..|s| - 1], s[|s| - 1];
      DecodePrefix(front, Escaped(c) + rest);
      assert Escape(s) + rest == Escape(front) + (Escaped(c) + rest);
      DecodeOne(c, rest);
      assert Sanitized(s) == Sanitized(front) + [Plain(c)];
      assert Decode(rest).Some? ==>
        Sanitized(front) + ([Plain(c)] + Decode(rest).value) == Sanitized(s) + Decode(rest).value;
    }
  }

  /** The escaped text is always a valid JSON string, and decodes to the sanitized original. */
  lemma DecodeEscape(s: string)
    ensures Decode(Escape(s)) == Some(Sanitized(s))
  {
    DecodePrefix(s, []);
    assert Escape(s) + [] == Escape(s) && Sanitized(s) + [] == Sanitized(s);
  }

  /** `json_str`: fill a buffer of `max` characters, stopping four short of its end. A source of
      fewer than `max / 2 - 1` characters is never cut. */
  method JsonStr(src: string, dst: array<char>) returns (length: nat, ghost taken: nat)
    requires dst.Length >= 1
    modifies dst
    ensures taken <= |src| && length < dst.Length && dst[..length] == Escape(src[..taken])
    ensures 2 * |src| + 2 < dst.Length ==> taken == |src|
    ensures taken < |src| ==> length >= dst.Length - 4
  {
    var i, j := 0, 0;
    while i < |src| && j < dst.Length - 4
      invariant 0 <= i <= |src| && 0 <= j <= 2 * i && (j < dst.Length - 2 || j == 0)
      invariant dst[..j] == Escape(src[..i])
      decreases |src| - i
    {
      var c := src[i];
      ghost var before := dst[..j];
      assert src[..i + 1][..i] == src[..i];
      var e := Escaped(c);
      dst[j] := e[0];
      if |e| == 2 {
        dst[j + 1] := e[1];
      }
      j := j + |e|;
      i := i + 1;
      assert dst[..j] == before + e;
    }
    taken := i;
    dst[j] := 0 as char;
    length := j;
  }
}
