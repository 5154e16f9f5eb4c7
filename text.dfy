/** The pieces of Rust's `str` API the config readers and the lexer rely on:
    `char::is_whitespace`, `str::lines`, `split_whitespace().nth(0)`,
    `trim_start` and `trim_end`.  Strings are sequences of Unicode scalar
    values; offsets are counted in characters. */
module Text {
  import opened Wrappers

  /** Rust's `char::is_whitespace`: the characters with the Unicode
      White_Space property. */
  predicate IsWhitespace(c: char) {
    var x := c as int;
    (0x09 <= x <= 0x0D) || x == 0x20 || x == 0x85 || x == 0xA0 || x == 0x1680
    || (0x2000 <= x <= 0x200A) || x == 0x2028 || x == 0x2029 || x == 0x202F
    || x == 0x205F || x == 0x3000
  }

  predicate AllWhitespace(s: string) {
    forall i | 0 <= i < |s| :: IsWhitespace(s[i])
  }

  predicate NoWhitespace(s: string) {
    forall i | 0 <= i < |s| :: !IsWhitespace(s[i])
  }

  /** The length of the run of whitespace that `s` starts with. */
  function LeadingWhitespace(s: string): (k: nat)
    ensures k <= |s|
    ensures AllWhitespace(s[..k])
    ensures k < |s| ==> !IsWhitespace(s[k])
  {
    if s != [] && IsWhitespace(s[0]) then 1 + LeadingWhitespace(s[1..]) else 0
  }

  /** The length of the run of non-whitespace characters that `s` starts with. */
  function LeadingWord(s: string): (k: nat)
    ensures k <= |s|
    ensures NoWhitespace(s[..k])
    ensures k < |s| ==> IsWhitespace(s[k])
  {
    if s != [] && !IsWhitespace(s[0]) then 1 + LeadingWord(s[1..]) else 0
  }

  /** The length of the run of whitespace that `s` ends with. */
  function TrailingWhitespace(s: string): (k: nat)
    ensures k <= |s|
    ensures AllWhitespace(s[|s| - k..])
    ensures k < |s| ==> !IsWhitespace(s[|s| - 1 - k])
  {
    if s != [] && IsWhitespace(s[|s| - 1]) then 1 + TrailingWhitespace(s[..|s| - 1]) else 0
  }

  /** `line.split_whitespace().nth(0)`: the first maximal run of
      non-whitespace characters, if there is one. */
  function FirstWord(line: string): (r: Option<string>)
    ensures r.None? <==> AllWhitespace(line)
    ensures r.Some? ==> r.value != [] && NoWhitespace(r.value) && |r.value| <= |line|
  {
    var i := LeadingWhitespace(line);
    if i == |line| then None else Some(line[i..][..LeadingWord(line[i..])])
  }

  /** `s.trim_start().trim_end()` */
  function Trim(s: string): (r: string)
    ensures r == [] || (!IsWhitespace(r[0]) && !IsWhitespace(r[|r| - 1]))
    ensures r == [] <==> AllWhitespace(s)
  {
    var i := LeadingWhitespace(s);
    var t := s[i..];
    var k := TrailingWhitespace(t);
    var r := t[..|t| - k];
    assert r != [] ==> r[0] == s[i] && r[|r| - 1] == t[|t| - 1 - k];
    assert r == [] ==> i == |s| by {
      if i < |s| {
        assert t[0] == s[i];
      }
    }
    assert i == |s| ==> s[..i] == s;
    r
  }

  /** Index of the first `'\n'` in `s`, or `|s|` if there is none. */
  function LineEnd(s: string): (k: nat)
    ensures k <= |s|
    ensures forall j | 0 <= j < k :: s[j] != '\n'
    ensures k < |s| ==> s[k] == '\n'
  {
    if s == [] || s[0] == '\n' then 0 else 1 + LineEnd(s[1..])
  }

  function StripCarriageReturn(line: string): string {
    if line != [] && line[|line| - 1] == '\r' then line[..|line| - 1] else line
  }

  /** Rust's `str::lines`: split at `"\n"` or `"\r\n"`; the last line ending
      is optional, so a trailing newline does not produce an empty last line;
      a `'\r'` not followed by `'\n'` stays in the line. */
  function Lines(s: string): (r: seq<string>)
    ensures |r| <= |s|
    ensures forall l | l in r :: '\n' !in l
    decreases |s|
  {
    if s == [] then []
    else
      var k := LineEnd(s);
      if k == |s| then [s]
      else [StripCarriageReturn(s[..k])] + Lines(s[k + 1..])
  }

  /** A line that `Lines` gives back unchanged once a newline is put after it. */
  predicate PlainLine(l: string) {
    '\n' !in l && (l == [] || l[|l| - 1] != '\r')
  }

  /** Lines written out, each followed by a newline. */
  function JoinLines(ls: seq<string>): string {
    if ls == [] then [] else ls[0] + "\n" + JoinLines(ls[1..])
  }

  lemma JoinLinesAppend(a: seq<string>, b: seq<string>)
    ensures JoinLines(a + b) == JoinLines(a) + JoinLines(b)
  {
    if a != [] {
      assert (a + b)[0] == a[0];
      assert (a + b)[1..] == a[1..] + b;
      JoinLinesAppend(a[1..], b);
      calc {
        JoinLines(a + b);
        a[0] + "\n" + JoinLines(a[1..] + b);
        a[0] + "\n" + (JoinLines(a[1..]) + JoinLines(b));
        (a[0] + "\n" + JoinLines(a[1..])) + JoinLines(b);
      }
    } else {
      assert a + b == b;
    }
  }

  lemma {:induction false} LineEndBefore(l: string, rest: string)
    requires '\n' !in l
    ensures LineEnd(l + "\n" + rest) == |l|
  {
    var s := l + "\n" + rest;
    if l != [] {
      assert l[0] in l;
      assert s[1..] == l[1..] + "\n" + rest;
      LineEndBefore(l[1..], rest);
    }
  }

  /** `lines` undoes `JoinLines`: a config written line by line is read back
      line by line. */
  lemma {:induction false} LinesOfJoinLines(ls: seq<string>)
    requires forall l | l in ls :: PlainLine(l)
    ensures Lines(JoinLines(ls)) == ls
  {
    if ls != [] {
      var l := ls[0];
      assert l in ls;
      var s := JoinLines(ls);
      assert s == l + "\n" + JoinLines(ls[1..]);
      LineEndBefore(l, JoinLines(ls[1..]));
      assert s[..|l|] == l;
      assert s[|l| + 1..] == JoinLines(ls[1..]);
      LinesOfJoinLines(ls[1..]);
    }
  }
}
