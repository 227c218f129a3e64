/**
 * The tokens of one physical line of the relation language. Whitespace
 * between tokens is insignificant; a run of digits is a priority and a
 * word is an operand, a component name, or `theme.plugin`.
 */
module Lexer {
  import opened Outcomes
  import opened Text

  datatype Token =
    | Word(text: string)      // identifier, possibly holding `.`
    | Number(value: nat)      // the decimal integer of `<<p` and `p>>`
    | Colon                   // `:` after a component name
    | Equals                  // `=` after a component name
    | LeftShift               // `<<`
    | RightShift              // `>>`

  /** Length of the longest prefix of `s` whose characters are all in the class. */
  function Span(s: string, inClass: char -> bool): (n: nat)
    ensures n <= |s|
    ensures forall i :: 0 <= i < n ==> inClass(s[i])
    ensures n < |s| ==> !inClass(s[n])
  {
    if s != [] && inClass(s[0]) then 1 + Span(s[1..], inClass) else 0
  }

  lemma {:induction false} SpanOfPrefix(w: string, rest: string, inClass: char -> bool)
    requires forall i :: 0 <= i < |w| ==> inClass(w[i])
    requires rest == [] || !inClass(rest[0])
    ensures Span(w + rest, inClass) == |w|
  {
    if w != [] {
      assert (w + rest)[1..] == w[1..] + rest;
      SpanOfPrefix(w[1..], rest, inClass);
    } else {
      assert w + rest == rest;
    }
  }

  /** The value of a string of decimal digits, most significant first. */
  function DecimalValue(ds: string): nat
    requires forall i :: 0 <= i < |ds| ==> IsDigit(ds[i])
  {
    if ds == [] then 0
    else
      var last := ds[|ds| - 1];
      assert IsDigit(last);
      10 * DecimalValue(ds[..|ds| - 1]) + (last as int - '0' as int)
  }

  /**
   * A priority as the grammar's `decimalinteger` spells it: digits, with a
   * leading zero only in a run of zeros.
   */
  predicate DecimalLiteral(ds: string)
  {
    && |ds| > 0
    && (forall i :: 0 <= i < |ds| ==> IsDigit(ds[i]))
    && (ds[0] == '0' ==> forall i :: 0 <= i < |ds| ==> ds[i] == '0')
  }

  /** The decimal spelling of `n`, without leading zeros. */
  function Decimal(n: nat): (ds: string)
    ensures |ds| > 0
    ensures forall i :: 0 <= i < |ds| ==> IsDigit(ds[i])
    ensures ds[0] != '0' || ds == "0"
    ensures DecimalValue(ds) == n
  {
    var last := ('0' as int + n % 10) as char;
    if n < 10 then
      assert [last][..0] == [];
      [last]
    else
      var front := Decimal(n / 10);
      assert front != "0" by {
        assert DecimalValue("0") == 0;
      }
      assert (front + [last])[..|front|] == front;
      front + [last]
  }

  function Prepend(t: Token, rest: Result<seq<Token>, char>): Result<seq<Token>, char>
  {
    match rest
    case Ok(ts) => Ok([t] + ts)
    case Err(c) => Err(c)
  }

  /** A token as the lexer produces it: a word starts with a letter. */
  predicate WellFormed(t: Token)
  {
    t.Word? ==> |t.text| > 0 && IsLetter(t.text[0]) && forall i :: 0 <= i < |t.text| ==> IsWordChar(t.text[i])
  }

  /**
   * The tokens of a line, or the first character at which no token can be
   * read: one that starts no token, or the `0` that starts a number with a
   * leading zero. Words and numbers are maximal runs of their characters.
   */
  function Lex(s: string): (r: Result<seq<Token>, char>)
    ensures r.Ok? ==> forall k :: 0 <= k < |r.value| ==> WellFormed(r.value[k])
    ensures r.Err? ==> r.error in s && !IsSpace(r.error) && !IsLetter(r.error) && (IsDigit(r.error) ==> r.error == '0')
    decreases |s|
  {
    if s == [] then Ok([])
    else if IsSpace(s[0]) then Lex(s[1..])
    else if s[0] == ':' then Prepend(Colon, Lex(s[1..]))
    else if s[0] == '=' then Prepend(Equals, Lex(s[1..]))
    else if s[0] == '<' && |s| > 1 && s[1] == '<' then Prepend(LeftShift, Lex(s[2..]))
    else if s[0] == '>' && |s| > 1 && s[1] == '>' then Prepend(RightShift, Lex(s[2..]))
    else if IsDigit(s[0]) then
      var n := Span(s, IsDigit);
      if DecimalLiteral(s[..n]) then Prepend(Number(DecimalValue(s[..n])), Lex(s[n..]))
      else Err(s[0])
    else if IsLetter(s[0]) then
      var n := Span(s, IsWordChar);
      Prepend(Word(s[..n]), Lex(s[n..]))
    else Err(s[0])
  }

  /** How a token is written. */
  function Spelling(t: Token): string
  {
    match t
    case Word(w) => w
    case Number(n) => Decimal(n)
    case Colon => ":"
    case Equals => "="
    case LeftShift => "<<"
    case RightShift => ">>"
  }

  /** Tokens written one after another with a single space between them. */
  function Render(ts: seq<Token>): string
  {
    if ts == [] then ""
    else if |ts| == 1 then Spelling(ts[0])
    else Spelling(ts[0]) + " " + Render(ts[1..])
  }

  /** A character that, written right after `t`, would be read as part of it. */
  predicate Continues(t: Token, c: char)
  {
    (t.Word? && IsWordChar(c)) || (t.Number? && IsDigit(c))
  }

  /** A word is lexed back whole when no word character follows it. */
  lemma LexWord(w: string, rest: string)
    requires WellFormed(Word(w))
    requires rest == [] || !IsWordChar(rest[0])
    ensures Lex(w + rest) == Prepend(Word(w), Lex(rest))
  {
    var s := w + rest;
    assert s[0] == w[0];
    SpanOfPrefix(w, rest, IsWordChar);
    assert s[..|w|] == w && s[|w|..] == rest;
  }

  /** A decimal literal is lexed whole, as its value, when no digit follows it. */
  lemma LexLiteral(ds: string, rest: string)
    requires DecimalLiteral(ds)
    requires rest == [] || !IsDigit(rest[0])
    ensures Lex(ds + rest) == Prepend(Number(DecimalValue(ds)), Lex(rest))
  {
    var s := ds + rest;
    assert s[0] == ds[0];
    SpanOfPrefix(ds, rest, IsDigit);
    assert s[..|ds|] == ds && s[|ds|..] == rest;
  }

  /** A run of digits with a leading zero and a non-zero digit, such as `01`, is no token. */
  lemma LexLeadingZero(ds: string, rest: string)
    requires |ds| > 0 && (forall i :: 0 <= i < |ds| ==> IsDigit(ds[i])) && !DecimalLiteral(ds)
    requires rest == [] || !IsDigit(rest[0])
    ensures ds[0] == '0' && Lex(ds + rest) == Err('0')
  {
    var s := ds + rest;
    assert s[0] == ds[0];
    SpanOfPrefix(ds, rest, IsDigit);
    assert s[..|ds|] == ds;
  }

  /** A number is lexed back whole when no digit follows it. */
  lemma LexNumber(n: nat, rest: string)
    requires rest == [] || !IsDigit(rest[0])
    ensures Lex(Decimal(n) + rest) == Prepend(Number(n), Lex(rest))
  {
    LexLiteral(Decimal(n), rest);
  }

  /** A token's spelling is lexed back to the token, whatever follows it that does not extend it. */
  lemma LexToken(t: Token, rest: string)
    requires WellFormed(t)
    requires rest == [] || !Continues(t, rest[0])
    ensures Lex(Spelling(t) + rest) == Prepend(t, Lex(rest))
  {
    match t
    case Word(w) => LexWord(w, rest);
    case Number(n) => LexNumber(n, rest);
    case _ => LexSymbol(t, rest);
  }

  /** A punctuation token is lexed back whatever follows it. */
  lemma LexSymbol(t: Token, rest: string)
    requires !t.Word? && !t.Number?
    ensures Lex(Spelling(t) + rest) == Prepend(t, Lex(rest))
  {
    match t
    case Colon => assert (":" + rest)[1..] == rest;
    case Equals => assert ("=" + rest)[1..] == rest;
    case LeftShift => assert ("<<" + rest)[2..] == rest;
    case RightShift => assert (">>" + rest)[2..] == rest;
  }

  /** A space before the rest of a line is skipped. */
  lemma LexSpace(s: string)
    ensures Lex(" " + s) == Lex(s)
  {
    assert (" " + s)[1..] == s;
  }

  /** Lexing a rendered token sequence gives the tokens back. */
  lemma {:induction false} LexRender(ts: seq<Token>)
    requires forall k :: 0 <= k < |ts| ==> WellFormed(ts[k])
    ensures Lex(Render(ts)) == Ok(ts)
  {
    if |ts| == 1 {
      LexToken(ts[0], "");
      assert Spelling(ts[0]) + "" == Spelling(ts[0]) == Render(ts);
      assert [ts[0]] + [] == ts;
    } else if |ts| > 1 {
      var tail := Render(ts[1..]);
      LexToken(ts[0], " " + tail);
      assert Spelling(ts[0]) + " " + tail == Spelling(ts[0]) + (" " + tail);
      LexSpace(tail);
      LexRender(ts[1..]);
      assert [ts[0]] + ts[1..] == ts;
    }
  }

  /** A rendered token sequence holds no newline. */
  lemma {:induction false} RenderHasNoNewline(ts: seq<Token>)
    requires forall k :: 0 <= k < |ts| ==> WellFormed(ts[k])
    ensures '\n' !in Render(ts)
  {
    if |ts| > 0 {
      var w := Spelling(ts[0]);
      assert forall i :: 0 <= i < |w| ==> w[i] != '\n';
      if |ts| > 1 {
        RenderHasNoNewline(ts[1..]);
      }
    }
  }
}
