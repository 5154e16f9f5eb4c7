/** The lexer of src/lexer.rs.  A `Lexer` owns the characters of the config
    it has not consumed yet (the `Peekable<Chars>` of the source); the
    functions below say what each of its operations does to that sequence,
    and the lemmas at the end state what the lexer promises. */
module Lexer {
  import opened Wrappers
  import opened Text
  import opened Token

  /** The two stop conditions `read_until` is called with: unescaped
      whitespace (bare words and tags), and the quote that opened a quoted
      word. */
  datatype Terminator = Whitespace | Quote(q: char)

  predicate Ends(until: Terminator, c: char) {
    match until
    case Whitespace => IsWhitespace(c)
    case Quote(q) => c == q
  }

  /** Reading `s` from its start stops at index i: that character ends the
      read and the character before it (if any) is not the escape. */
  predicate StopsAt(s: seq<char>, until: Terminator, i: nat)
    requires i < |s|
  {
    Ends(until, s[i]) && (i == 0 || s[i - 1] != ESCAPE)
  }

  /** The first index at or after `from` where reading stops, or |s|. */
  function StopIndex(s: seq<char>, until: Terminator, from: nat): (k: nat)
    requires from <= |s|
    ensures from <= k <= |s|
    ensures forall j | from <= j < k :: !StopsAt(s, until, j)
    ensures k < |s| ==> StopsAt(s, until, k)
    decreases |s| - from
  {
    if from == |s| || StopsAt(s, until, from) then from else StopIndex(s, until, from + 1)
  }

  /** `read_until`: the characters before the first unescaped terminator,
      backslashes kept, and the input left after the terminator; with no
      unescaped terminator, all of the input and nothing left. */
  function Read(s: seq<char>, until: Terminator): (r: (string, seq<char>))
    ensures s != [] ==> |r.1| < |s|
  {
    var k := StopIndex(s, until, 0);
    (s[..k], if k < |s| then s[k + 1..] else [])
  }

  /** `next_token`: skip whitespace, then read one quoted word, tag or bare
      word; None when only whitespace is left. */
  function Lex(s: seq<char>): (r: Option<(Token, seq<char>)>)
    ensures r.None? <==> AllWhitespace(s)
    ensures r.Some? ==> |r.value.1| < |s|
  {
    var i := LeadingWhitespace(s);
    var t := s[i..];
    assert AllWhitespace(s) <==> t == [] by {
      if t != [] { assert s[i] == t[0]; }
      if t == [] { assert s == s[..i]; }
    }
    if t == [] then None
    else if t[0] == '\'' || t[0] == '"' then
      var (text, rest) := Read(t[1..], Quote(t[0]));
      Some((Ident(text), rest))
    else if t[0] == '#' then
      Some((Tag, Read(t, Whitespace).1))
    else
      var (word, rest) := Read(t, Whitespace);
      Some((Lookup(word), rest))
  }

  /** `Iterator::next`: `next_token`, repeated while it yields a tag. */
  function LexNext(s: seq<char>): (r: Option<(Token, seq<char>)>)
    ensures r.Some? ==> r.value.0 != Tag && |r.value.1| < |s|
    decreases |s|
  {
    match Lex(s)
    case None => None
    case Some((t, rest)) => if t == Tag then LexNext(rest) else Some((t, rest))
  }

  /** Every token the iterator yields for `s`, in order. */
  function Tokens(s: seq<char>): (ts: seq<Token>)
    ensures |ts| <= |s|
    ensures Tag !in ts
    decreases |s|
  {
    match LexNext(s)
    case None => []
    case Some((t, rest)) => [t] + Tokens(rest)
  }

  class Lexer {
    /** The characters not consumed yet. */
    var input: seq<char>

    constructor (text: string)
      ensures input == text
    {
      input := text;
    }

    method ReadChar() returns (c: Option<char>)
      modifies this
      ensures old(input) == [] ==> c == None && input == []
      ensures old(input) != [] ==> c == Some(old(input)[0]) && input == old(input)[1..]
    {
      if input == [] {
        c := None;
      } else {
        c := Some(input[0]);
        input := input[1..];
      }
    }

    method PeekChar() returns (c: Option<char>)
      ensures c == if input == [] then None else Some(input[0])
    {
      c := if input == [] then None else Some(input[0]);
    }

    method SkipWhitespace()
      modifies this
      ensures input == old(input)[LeadingWhitespace(old(input))..]
      ensures input == [] || !IsWhitespace(input[0])
    {
      ghost var s := input;
      ghost var k := LeadingWhitespace(s);
      ghost var i := 0;
      var c := PeekChar();
      while c.Some? && IsWhitespace(c.value)
        invariant i <= k && input == s[i..]
        invariant c == if input == [] then None else Some(input[0])
        decreases |input|
      {
        assert s[i] == input[0];
        c := ReadChar();
        i := i + 1;
        c := PeekChar();
      }
    }

    method ReadUntil(until: Terminator) returns (ident: string)
      modifies this
      ensures (ident, input) == Read(old(input), until)
    {
      ghost var s := input;
      ghost var i := 0;
      ident := [];
      var prev := '\0';
      while true
        invariant i <= |s| && ident == s[..i] && input == s[i..]
        invariant prev == if i == 0 then '\0' else s[i - 1]
        invariant forall j | 0 <= j < i :: !StopsAt(s, until, j)
        decreases |input|
      {
        var c := ReadChar();
        if c.None? {
          return;
        }
        var curr := c.value;
        if prev != ESCAPE && Ends(until, curr) {
          assert StopsAt(s, until, i);
          return;
        }
        ident := ident + [curr];
        prev := curr;
        i := i + 1;
      }
    }

    method NextToken() returns (tok: Option<Token>)
      modifies this
      ensures tok.None? ==> Lex(old(input)) == None && input == []
      ensures tok.Some? ==> Lex(old(input)) == Some((tok.value, input))
    {
      SkipWhitespace();
      var c := PeekChar();
      if c.None? {
        return None;
      }
      var curr := c.value;
      if curr == '\'' || curr == '"' {
        // consume the opening quote
        var _ := ReadChar();
        var text := ReadUntil(Quote(curr));
        tok := Some(Ident(text));
      } else if curr == '#' {
        var _ := ReadUntil(Whitespace);
        tok := Some(Tag);
      } else {
        var word := ReadUntil(Whitespace);
        tok := Some(Lookup(word));
      }
    }

    method Next() returns (tok: Option<Token>)
      modifies this
      ensures tok.None? ==> LexNext(old(input)) == None
      ensures tok.Some? ==> LexNext(old(input)) == Some((tok.value, input))
      ensures tok.None? ==> input == []
    {
      tok := NextToken();
      while tok == Some(Tag)
        invariant LexNext(old(input)) == if tok == Some(Tag) then LexNext(input)
                                          else if tok.None? then None
                                          else Some((tok.value, input))
        invariant tok.None? ==> input == []
        decreases |input| + if tok == Some(Tag) then 1 else 0
      {
        tok := NextToken();
      }
    }
  }

  /** The input holds nothing but whitespace and `#` tags. */
  predicate OnlyTags(s: seq<char>)
    decreases |s|
  {
    var t := s[LeadingWhitespace(s)..];
    t == [] || (t[0] == '#' && OnlyTags(Read(t, Whitespace).1))
  }

  /** The iterator is exhausted exactly when what is left is whitespace and
      tags. */
  lemma {:induction false} LexNextNoneIffOnlyTags(s: seq<char>)
    ensures LexNext(s).None? <==> OnlyTags(s)
    decreases |s|
  {
    var t := s[LeadingWhitespace(s)..];
    if t != [] && t[0] == '#' {
      LexNextNoneIffOnlyTags(Read(t, Whitespace).1);
    }
  }

  /** The first index where reading stops is pinned down by the stop
      property of the indices before it and at it. */
  lemma StopIndexIs(s: seq<char>, until: Terminator, k: nat)
    requires k <= |s|
    requires forall j | 0 <= j < k :: !StopsAt(s, until, j)
    requires k < |s| ==> StopsAt(s, until, k)
    ensures StopIndex(s, until, 0) == k
  {
  }

  lemma LeadingWhitespaceIs(ws: seq<char>, rest: seq<char>)
    requires AllWhitespace(ws)
    requires rest != [] && !IsWhitespace(rest[0])
    ensures LeadingWhitespace(ws + rest) == |ws|
  {
    var s := ws + rest;
    var k := LeadingWhitespace(s);
    assert forall j | 0 <= j < |ws| :: s[j] == ws[j];
    assert s[|ws|] == rest[0];
  }

  /** A quoted word is an identifier holding the text between the quotes,
      with the quotes removed, whatever that text spells (a keyword or a
      number included); escaped quotes stay inside it. */
  lemma QuotedWordIsIdent(ws: seq<char>, q: char, body: string, rest: seq<char>)
    requires AllWhitespace(ws)
    requires q == '\'' || q == '"'
    requires forall j | 0 <= j < |body| :: body[j] == q ==> j > 0 && body[j - 1] == ESCAPE
    requires body == [] || body[|body| - 1] != ESCAPE
    ensures Lex(ws + [q] + body + [q] + rest) == Some((Ident(body), rest))
    ensures LexNext(ws + [q] + body + [q] + rest) == Some((Ident(body), rest))
  {
    var s := ws + [q] + body + [q] + rest;
    var t := [q] + (body + [q] + rest);
    assert s == ws + t;
    LeadingWhitespaceIs(ws, t);
    assert s[|ws|..] == t;
    assert t[1..] == body + [q] + rest;
    ReadQuoted(q, body, rest);
  }

  /** Reading a quoted body up to its closing quote yields the body and
      drops the quote. */
  lemma ReadQuoted(q: char, body: string, rest: seq<char>)
    requires q == '\'' || q == '"'
    requires forall j | 0 <= j < |body| :: body[j] == q ==> j > 0 && body[j - 1] == ESCAPE
    requires body == [] || body[|body| - 1] != ESCAPE
    ensures Read(body + [q] + rest, Quote(q)) == (body, rest)
  {
    var u := body + [q] + rest;
    forall j | 0 <= j < |body|
      ensures !StopsAt(u, Quote(q), j)
    {
      assert u[j] == body[j];
      if j > 0 { assert u[j - 1] == body[j - 1]; }
    }
    assert StopsAt(u, Quote(q), |body|);
    StopIndexIs(u, Quote(q), |body|);
    assert u[..|body|] == body;
    assert u[|body| + 1..] == rest;
  }

  /** Whitespace inside a word that is escaped does not end it. */
  predicate WhitespaceEscaped(w: string) {
    forall j | 0 <= j < |w| :: IsWhitespace(w[j]) ==> j > 0 && w[j - 1] == ESCAPE
  }

  /** What follows a word ends it: the end of the input, or a whitespace
      character that the word's last character does not escape. */
  predicate EndsWord(w: string, tail: seq<char>) {
    tail == [] || (IsWhitespace(tail[0]) && w != [] && w[|w| - 1] != ESCAPE)
  }

  /** Reading a word up to unescaped whitespace yields the word and drops
      the whitespace character that ended it. */
  lemma ReadWord(w: string, tail: seq<char>)
    requires w != [] && !IsWhitespace(w[0]) && WhitespaceEscaped(w) && EndsWord(w, tail)
    ensures Read(w + tail, Whitespace) == (w, if tail == [] then [] else tail[1..])
  {
    var u := w + tail;
    forall j | 0 <= j < |w|
      ensures !StopsAt(u, Whitespace, j)
    {
      assert u[j] == w[j];
      if j > 0 { assert u[j - 1] == w[j - 1]; }
    }
    if tail != [] {
      assert u[|w|] == tail[0] && u[|w| - 1] == w[|w| - 1];
      assert StopsAt(u, Whitespace, |w|);
    }
    StopIndexIs(u, Whitespace, |w|);
    assert u[..|w|] == w;
    if tail != [] {
      assert u[|w| + 1..] == tail[1..];
    }
  }

  /** A bare word is looked up as a keyword, number or identifier; it runs
      to the first unescaped whitespace, escaped whitespace and the
      backslashes included. */
  lemma BareWordIsLookedUp(ws: seq<char>, w: string, tail: seq<char>)
    requires AllWhitespace(ws)
    requires w != [] && !IsWhitespace(w[0]) && w[0] !in {'\'', '"', '#'}
    requires WhitespaceEscaped(w) && EndsWord(w, tail)
    ensures Lex(ws + w + tail) == Some((Lookup(w), if tail == [] then [] else tail[1..]))
    ensures LexNext(ws + w + tail) == Some((Lookup(w), if tail == [] then [] else tail[1..]))
  {
    var s := ws + w + tail;
    assert s == ws + (w + tail);
    LeadingWhitespaceIs(ws, w + tail);
    assert s[|ws|..] == w + tail;
    ReadWord(w, tail);
  }

  /** A `#` word is a tag: the iterator skips it and goes on with what
      follows it. */
  lemma TagIsSkipped(ws: seq<char>, w: string, tail: seq<char>)
    requires AllWhitespace(ws)
    requires w != [] && w[0] == '#'
    requires WhitespaceEscaped(w) && EndsWord(w, tail)
    ensures Lex(ws + w + tail) == Some((Tag, if tail == [] then [] else tail[1..]))
    ensures LexNext(ws + w + tail) == LexNext(if tail == [] then [] else tail[1..])
  {
    var s := ws + w + tail;
    assert s == ws + (w + tail);
    LeadingWhitespaceIs(ws, w + tail);
    assert s[|ws|..] == w + tail;
    ReadWord(w, tail);
  }
}
