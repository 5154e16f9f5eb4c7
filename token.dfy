/** The tokens of an RBuild config and `Token::lookup`, which classifies a
    bare word as a keyword, a number or an identifier (src/token.rs). */
module Token {
  import opened Wrappers

  datatype Token =
    | Ident(text: string)
    | Num(value: nat)
    // keywords
    | Path
    | Deps
    | Run
    | Always
    // produced for `#...` words; the lexer's iterator drops it
    | Tag

  /** The character that escapes the one after it. */
  const ESCAPE: char := '\\'

  /** `usize::MAX` on the 64-bit targets the tool is built for. */
  const USIZE_MAX: nat := 0xFFFF_FFFF_FFFF_FFFF

  predicate IsDigit(c: char) {
    '0' <= c <= '9'
  }

  predicate AllDigits(s: string) {
    forall i | 0 <= i < |s| :: IsDigit(s[i])
  }

  /** The value of a string of decimal digits, most significant first. */
  function DigitsValue(s: string): nat
    requires AllDigits(s)
  {
    if s == [] then 0
    else 10 * DigitsValue(s[..|s| - 1]) + (s[|s| - 1] as int - '0' as int)
  }

  /** Rust's `str::parse::<usize>`: an optional `+`, then one or more ASCII
      digits whose value fits in a `usize`. */
  function ParseUsize(s: string): Option<nat> {
    var digits := if s != [] && s[0] == '+' then s[1..] else s;
    if digits != [] && AllDigits(digits) && DigitsValue(digits) <= USIZE_MAX
    then Some(DigitsValue(digits))
    else None
  }

  /** `Token::lookup`: exactly the four keywords become keyword tokens; any
      other word that parses as a `usize` becomes `Num`; everything else,
      the empty word included, becomes `Ident` with the same text. */
  function Lookup(ident: string): (t: Token)
    ensures t != Tag
    ensures t == Path <==> ident == "path"
    ensures t == Deps <==> ident == "deps"
    ensures t == Run <==> ident == "run"
    ensures t == Always <==> ident == "always"
    ensures t.Num? ==> ParseUsize(ident) == Some(t.value) && t.value <= USIZE_MAX
    ensures t.Ident? ==> t.text == ident && ParseUsize(ident).None?
  {
    match ident
    case "path" => Path
    case "deps" => Deps
    case "run" => Run
    case "always" => Always
    case _ =>
      match ParseUsize(ident)
      case Some(n) => Num(n)
      case None => Ident(ident)
  }

  /** The decimal digit for 0 <= d < 10. */
  function Digit(d: nat): char
    requires d < 10
  {
    ('0' as int + d) as char
  }

  /** The decimal representation of n, without leading zeros. */
  function Decimal(n: nat): (s: string)
    ensures s != [] && AllDigits(s)
  {
    if n < 10 then [Digit(n)] else Decimal(n / 10) + [Digit(n % 10)]
  }

  lemma {:induction false} DigitsValueOfDecimal(n: nat)
    ensures DigitsValue(Decimal(n)) == n
  {
    var s := Decimal(n);
    if n >= 10 {
      assert s[..|s| - 1] == Decimal(n / 10);
      DigitsValueOfDecimal(n / 10);
    }
  }

  /** A word that starts with a digit or `+` is no keyword, so it is a
      number whenever it parses as one. */
  lemma LookupNumeral(s: string)
    requires s != [] && (IsDigit(s[0]) || s[0] == '+') && ParseUsize(s).Some?
    ensures Lookup(s) == Num(ParseUsize(s).value)
  {
    assert s[0] != 'p' && s[0] != 'd' && s[0] != 'r' && s[0] != 'a';
    assert s != "path" && s != "deps" && s != "run" && s != "always";
  }

  /** Every decimal numeral that fits in a `usize` is read back as that
      number, with or without a leading `+`. */
  lemma LookupDecimal(n: nat)
    requires n <= USIZE_MAX
    ensures Lookup(Decimal(n)) == Num(n)
    ensures Lookup("+" + Decimal(n)) == Num(n)
  {
    DigitsValueOfDecimal(n);
    var s := Decimal(n);
    assert IsDigit(s[0]);
    LookupNumeral(s);
    var p := "+" + s;
    assert p[0] == '+' && p[1..] == s;
    LookupNumeral(p);
  }

  /** A decimal numeral too large for a `usize` stays an identifier with
      the same text. */
  lemma LookupOverflow(n: nat)
    requires n > USIZE_MAX
    ensures Lookup(Decimal(n)) == Ident(Decimal(n))
  {
    DigitsValueOfDecimal(n);
    var s := Decimal(n);
    assert IsDigit(s[0]);
  }

  /** A word with a character that is neither a digit nor a leading `+`, and
      that is not a keyword, is an identifier with the same text. */
  lemma LookupNonNumeric(s: string, i: nat)
    requires i < |s| && !IsDigit(s[i]) && !(i == 0 && s[i] == '+')
    requires s !in ["path", "deps", "run", "always"]
    ensures Lookup(s) == Ident(s)
  {
    if s[0] == '+' {
      assert s[1..][i - 1] == s[i];
    }
  }
}
