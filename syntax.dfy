/**
 * The grammar of the relation language: a text is a sequence of component
 * blocks, each opened by a header `name :` or `name =` (which may carry one
 * relation on the same line) and followed by one relation per line.
 *
 *   binary:  x << y    x <<p y    x >> y    x p>> y
 *   unary:   x <<      x <<p      >> y      p>> y
 *   bare:    x
 *
 * An operand is `plugin` or `theme.plugin`, each part an identifier.
 */
module Syntax {
  import opened Outcomes
  import opened Text
  import opened Lexer

  /** `<<` (left runs first) and `>>` (right runs first). */
  datatype Op = Precedes | Follows

  /** A relation expression as written, before normalisation. */
  datatype Expr =
    | Binary(left: string, op: Op, priority: Option<nat>, right: string)
    | UnaryPrecedes(operand: string, priority: Option<nat>)   // x <<[p]
    | UnaryFollows(priority: Option<nat>, operand: string)    // [p]>> y
    | Bare(operand: string)                                   // x

  /** A classified physical line. */
  datatype Line = Blank | Header(name: string, inline: Option<Expr>) | Item(expr: Expr)

  /** A component block: its name and its relation expressions in source order. */
  datatype Component = Component(name: string, exprs: seq<Expr>)

  datatype ParseError = UnexpectedCharacter(c: char) | MalformedLine | RelationOutsideComponent

  predicate IsIdentifier(s: string)
  {
    |s| > 0 && IsLetter(s[0]) && forall i :: 0 < i < |s| ==> IsIdentChar(s[i])
  }

  /** `plugin` or `theme.plugin`. */
  predicate IsOperand(s: string)
  {
    var i := IndexOf(s, '.');
    if i == |s| then IsIdentifier(s) else IsIdentifier(s[..i]) && IsIdentifier(s[i + 1..])
  }

  /** An operand is lexed as one word. */
  lemma OperandIsWord(s: string)
    requires IsOperand(s)
    ensures WellFormed(Word(s))
  {
    var i := IndexOf(s, '.');
    if i < |s| {
      assert s == s[..i] + "." + s[i + 1..];
      forall k | 0 <= k < |s| ensures IsWordChar(s[k]) {
        if k < i {
          assert s[k] == s[..i][k];
        } else if k > i {
          assert s[k] == s[i + 1..][k - i - 1];
        }
      }
    }
  }

  predicate IsOperandToken(t: Token) { t.Word? && IsOperand(t.text) }

  /** The operator of a relation: `<<`, `<<p`, `>>` or `p>>`. */
  function ParseOperator(ts: seq<Token>): Option<(Op, Option<nat>)>
  {
    if ts == [LeftShift] then Some((Precedes, None))
    else if ts == [RightShift] then Some((Follows, None))
    else if |ts| == 2 && ts[0] == LeftShift && ts[1].Number? then Some((Precedes, Some(ts[1].value)))
    else if |ts| == 2 && ts[0].Number? && ts[1] == RightShift then Some((Follows, Some(ts[0].value)))
    else None
  }

  function OperatorTokens(op: Op, priority: Option<nat>): seq<Token>
  {
    match (op, priority)
    case (Precedes, None) => [LeftShift]
    case (Precedes, Some(p)) => [LeftShift, Number(p)]
    case (Follows, None) => [RightShift]
    case (Follows, Some(p)) => [Number(p), RightShift]
  }

  /** The tokens of a relation expression, or None when they fit no form of the grammar. */
  function ClassifyExpr(ts: seq<Token>): Option<Expr>
  {
    if |ts| == 0 then None
    else if |ts| == 1 then
      if IsOperandToken(ts[0]) then Some(Bare(ts[0].text)) else None
    else if IsOperandToken(ts[0]) && IsOperandToken(ts[|ts| - 1]) then
      match ParseOperator(ts[1..|ts| - 1])
      case Some((op, p)) => Some(Binary(ts[0].text, op, p, ts[|ts| - 1].text))
      case None => None
    else if IsOperandToken(ts[0]) then
      match ParseOperator(ts[1..])
      case Some((Precedes, p)) => Some(UnaryPrecedes(ts[0].text, p))
      case _ => None
    else if IsOperandToken(ts[|ts| - 1]) then
      match ParseOperator(ts[..|ts| - 1])
      case Some((Follows, p)) => Some(UnaryFollows(p, ts[|ts| - 1].text))
      case _ => None
    else None
  }

  /** A physical line's tokens: blank, a component header, or a relation. */
  function ClassifyLine(ts: seq<Token>): Option<Line>
  {
    if ts == [] then Some(Blank)
    else if |ts| >= 2 && ts[0].Word? && IsIdentifier(ts[0].text) && (ts[1] == Colon || ts[1] == Equals) then
      if |ts| == 2 then Some(Header(ts[0].text, None))
      else
        match ClassifyExpr(ts[2..])
        case Some(e) => Some(Header(ts[0].text, Some(e)))
        case None => None
    else
      match ClassifyExpr(ts)
      case Some(e) => Some(Item(e))
      case None => None
  }

  function ParseLine(s: string): Result<Line, ParseError>
  {
    match Lex(s)
    case Err(c) => Err(UnexpectedCharacter(c))
    case Ok(ts) =>
      match ClassifyLine(ts)
      case Some(l) => Ok(l)
      case None => Err(MalformedLine)
  }

  /** A component name followed by `:` or `=` is lexed as the name, the separator, and the rest. */
  lemma LexHeader(name: string, sep: Token, rest: string)
    requires IsIdentifier(name) && (sep == Colon || sep == Equals)
    ensures Lex(name + Spelling(sep) + rest) == Prepend(Word(name), Prepend(sep, Lex(rest)))
  {
    assert WellFormed(Word(name));
    LexToken(Word(name), Spelling(sep) + rest);
    LexToken(sep, rest);
    assert name + Spelling(sep) + rest == name + (Spelling(sep) + rest);
  }

  lemma PrependTwo(a: Token, b: Token, r: Result<seq<Token>, char>)
    ensures r.Err? ==> Prepend(a, Prepend(b, r)) == r
    ensures r.Ok? ==> Prepend(a, Prepend(b, r)) == Ok([a, b] + r.value)
  {
    if r.Ok? {
      assert [a] + ([b] + r.value) == [a, b] + r.value;
    }
  }

  /** Both separators classify the rest of the line alike, as a header of that name. */
  lemma ClassifyHeader(name: string, ts: seq<Token>)
    requires IsIdentifier(name)
    ensures ClassifyLine([Word(name), Colon] + ts) == ClassifyLine([Word(name), Equals] + ts)
    ensures ClassifyLine([Word(name), Colon] + ts).Some? ==>
              ClassifyLine([Word(name), Colon] + ts).value.Header? && ClassifyLine([Word(name), Colon] + ts).value.name == name
  {
    assert ([Word(name), Colon] + ts)[2..] == ts;
    assert ([Word(name), Equals] + ts)[2..] == ts;
  }

  /** `name :` and `name =` open the same component, and the rest of the line is read alike. */
  lemma HeaderSeparatorsAgree(name: string, rest: string)
    requires IsIdentifier(name)
    ensures ParseLine(name + ":" + rest) == ParseLine(name + "=" + rest)
    ensures ParseLine(name + ":" + rest).Ok? ==>
              ParseLine(name + ":" + rest).value.Header? && ParseLine(name + ":" + rest).value.name == name
  {
    var colon, equals := name + ":" + rest, name + "=" + rest;
    assert colon == name + Spelling(Colon) + rest && equals == name + Spelling(Equals) + rest;
    LexHeader(name, Colon, rest);
    LexHeader(name, Equals, rest);
    PrependTwo(Word(name), Colon, Lex(rest));
    PrependTwo(Word(name), Equals, Lex(rest));
    if Lex(rest).Err? {
      assert Lex(colon) == Lex(equals) == Lex(rest);
    } else {
      var ts := Lex(rest).value;
      assert Lex(colon) == Ok([Word(name), Colon] + ts);
      assert Lex(equals) == Ok([Word(name), Equals] + ts);
      ClassifyHeader(name, ts);
    }
  }

  // ----- the inverse of classification: writing lines back -----

  predicate WellFormedExpr(e: Expr)
  {
    match e
    case Binary(a, _, _, b) => IsOperand(a) && IsOperand(b)
    case UnaryPrecedes(a, _) => IsOperand(a)
    case UnaryFollows(_, b) => IsOperand(b)
    case Bare(a) => IsOperand(a)
  }

  predicate WellFormedLine(l: Line)
  {
    match l
    case Blank => true
    case Header(n, inline) => IsIdentifier(n) && (inline.Some? ==> WellFormedExpr(inline.value))
    case Item(e) => WellFormedExpr(e)
  }

  function ExprTokens(e: Expr): seq<Token>
  {
    match e
    case Binary(a, op, p, b) => [Word(a)] + OperatorTokens(op, p) + [Word(b)]
    case UnaryPrecedes(a, p) => [Word(a)] + OperatorTokens(Precedes, p)
    case UnaryFollows(p, b) => OperatorTokens(Follows, p) + [Word(b)]
    case Bare(a) => [Word(a)]
  }

  function LineTokens(l: Line): seq<Token>
  {
    match l
    case Blank => []
    case Header(n, None) => [Word(n), Colon]
    case Header(n, Some(e)) => [Word(n), Colon] + ExprTokens(e)
    case Item(e) => ExprTokens(e)
  }

  /** A line written with a single space between its tokens. */
  function RenderLine(l: Line): string
  {
    Render(LineTokens(l))
  }

  lemma ClassifyExprTokens(e: Expr)
    requires WellFormedExpr(e)
    ensures ClassifyExpr(ExprTokens(e)) == Some(e)
  {
    var ts := ExprTokens(e);
    match e
    case Binary(a, op, p, b) =>
      assert ts[1..|ts| - 1] == OperatorTokens(op, p);
    case UnaryPrecedes(a, p) =>
      assert ts[1..] == OperatorTokens(Precedes, p);
    case UnaryFollows(p, b) =>
      assert ts[..|ts| - 1] == OperatorTokens(Follows, p);
    case Bare(a) =>
  }

  lemma LineTokensWellFormed(l: Line)
    requires WellFormedLine(l)
    ensures forall k :: 0 <= k < |LineTokens(l)| ==> WellFormed(LineTokens(l)[k])
  {
    match l
    case Blank =>
    case Header(n, inline) =>
      if inline.Some? {
        ExprOperandsAreWords(inline.value);
      }
    case Item(e) =>
      ExprOperandsAreWords(e);
  }

  lemma ExprOperandsAreWords(e: Expr)
    requires WellFormedExpr(e)
    ensures forall k :: 0 <= k < |ExprTokens(e)| ==> WellFormed(ExprTokens(e)[k])
  {
    match e
    case Binary(a, _, _, b) => OperandIsWord(a); OperandIsWord(b);
    case UnaryPrecedes(a, _) => OperandIsWord(a);
    case UnaryFollows(_, b) => OperandIsWord(b);
    case Bare(a) => OperandIsWord(a);
  }

  /** Reading a written line gives the line back. */
  lemma ParseRenderLine(l: Line)
    requires WellFormedLine(l)
    ensures ParseLine(RenderLine(l)) == Ok(l)
  {
    LineTokensWellFormed(l);
    LexRender(LineTokens(l));
    ClassifyLineTokens(l);
  }

  lemma ClassifyLineTokens(l: Line)
    requires WellFormedLine(l)
    ensures ClassifyLine(LineTokens(l)) == Some(l)
  {
    match l
    case Blank =>
    case Header(n, None) =>
    case Header(n, Some(e)) =>
      ClassifyExprTokens(e);
      assert LineTokens(l)[2..] == ExprTokens(e);
    case Item(e) =>
      ClassifyItemTokens(e);
  }

  /** The operator read is the one written: its tokens are exactly the ones given. */
  lemma ParseOperatorSound(ts: seq<Token>)
    requires ParseOperator(ts).Some?
    ensures OperatorTokens(ParseOperator(ts).value.0, ParseOperator(ts).value.1) == ts
  {
  }

  /** Classification is sound: a classified relation is well formed and its tokens are the ones read. */
  lemma ClassifyExprSound(ts: seq<Token>)
    requires ClassifyExpr(ts).Some?
    ensures WellFormedExpr(ClassifyExpr(ts).value)
    ensures ExprTokens(ClassifyExpr(ts).value) == ts
  {
    var e := ClassifyExpr(ts).value;
    if |ts| > 1 {
      var last := |ts| - 1;
      if IsOperandToken(ts[0]) && IsOperandToken(ts[last]) {
        ParseOperatorSound(ts[1..last]);
        assert ts == [ts[0]] + ts[1..last] + [ts[last]];
      } else if IsOperandToken(ts[0]) {
        ParseOperatorSound(ts[1..]);
        assert ts == [ts[0]] + ts[1..];
      } else {
        ParseOperatorSound(ts[..last]);
        assert ts == ts[..last] + [ts[last]];
      }
    }
  }

  /**
   * A classified line is well formed and gives back the tokens read, a header
   * being written back with `:` whichever separator it was read with.
   */
  lemma ClassifyLineSound(ts: seq<Token>)
    requires ClassifyLine(ts).Some?
    ensures WellFormedLine(ClassifyLine(ts).value)
    ensures !ClassifyLine(ts).value.Header? ==> LineTokens(ClassifyLine(ts).value) == ts
    ensures ClassifyLine(ts).value.Header? ==>
              |ts| >= 2 && ts[0] == Word(ClassifyLine(ts).value.name) && (ts[1] == Colon || ts[1] == Equals)
              && LineTokens(ClassifyLine(ts).value) == [Word(ClassifyLine(ts).value.name), Colon] + ts[2..]
  {
    var l := ClassifyLine(ts).value;
    if ts != [] {
      if |ts| >= 2 && ts[0].Word? && IsIdentifier(ts[0].text) && (ts[1] == Colon || ts[1] == Equals) {
        if |ts| > 2 {
          ClassifyExprSound(ts[2..]);
        }
      } else {
        ClassifyExprSound(ts);
      }
    }
  }

  /** Reading a line is sound: a line read is well formed and stands for the tokens the line holds. */
  lemma ParseLineSound(s: string)
    requires ParseLine(s).Ok?
    ensures Lex(s).Ok? && ClassifyLine(Lex(s).value) == Some(ParseLine(s).value)
    ensures WellFormedLine(ParseLine(s).value)
    ensures !ParseLine(s).value.Header? ==> LineTokens(ParseLine(s).value) == Lex(s).value
  {
    ClassifyLineSound(Lex(s).value);
  }

  /** The tokens of a relation never read as a component header. */
  lemma ClassifyItemTokens(e: Expr)
    requires WellFormedExpr(e)
    ensures ClassifyLine(ExprTokens(e)) == Some(Item(e))
  {
    ClassifyExprTokens(e);
    var ts := ExprTokens(e);
    assert !(|ts| >= 2 && ts[0].Word? && (ts[1] == Colon || ts[1] == Equals));
  }

  // ----- component blocks -----

  function Names(cs: seq<Component>): seq<string>
  {
    seq(|cs|, k requires 0 <= k < |cs| => cs[k].name)
  }

  /** The relation expressions of all blocks, block after block. */
  function AllExprs(cs: seq<Component>): seq<Expr>
  {
    if cs == [] then [] else AllExprs(cs[..|cs| - 1]) + cs[|cs| - 1].exprs
  }

  function HeaderNames(lines: seq<Line>): seq<string>
  {
    if lines == [] then []
    else (if lines[0].Header? then [lines[0].name] else []) + HeaderNames(lines[1..])
  }

  /** The relation expressions written on the lines, header lines included. */
  function LineExprs(lines: seq<Line>): seq<Expr>
  {
    if lines == [] then []
    else
      var here := match lines[0]
        case Blank => []
        case Header(_, None) => []
        case Header(_, Some(e)) => [e]
        case Item(e) => [e];
      here + LineExprs(lines[1..])
  }

  /** A relation line comes before the first header. */
  predicate OrphanItem(lines: seq<Line>)
  {
    exists i :: 0 <= i < |lines| && lines[i].Item? && forall j :: 0 <= j < i ==> lines[j].Blank?
  }

  function AddToLast(cs: seq<Component>, e: Expr): seq<Component>
    requires cs != []
  {
    cs[..|cs| - 1] + [Component(cs[|cs| - 1].name, cs[|cs| - 1].exprs + [e])]
  }

  lemma AddToLastKeepsNames(cs: seq<Component>, e: Expr)
    requires cs != []
    ensures Names(AddToLast(cs, e)) == Names(cs)
    ensures AllExprs(AddToLast(cs, e)) == AllExprs(cs) + [e]
  {
    var r := AddToLast(cs, e);
    assert r[..|r| - 1] == cs[..|cs| - 1];
  }

  lemma AppendComponent(cs: seq<Component>, c: Component)
    ensures Names(cs + [c]) == Names(cs) + [c.name]
    ensures AllExprs(cs + [c]) == AllExprs(cs) + c.exprs
  {
    assert (cs + [c])[..|cs|] == cs;
  }

  /** Where the first line is blank, a relation before any header is one of the later lines. */
  lemma OrphanAfterBlank(lines: seq<Line>)
    requires lines != [] && lines[0].Blank?
    ensures OrphanItem(lines) <==> OrphanItem(lines[1..])
  {
    var rest := lines[1..];
    if OrphanItem(rest) {
      var i :| 0 <= i < |rest| && rest[i].Item? && forall j :: 0 <= j < i ==> rest[j].Blank?;
      assert lines[i + 1].Item? && forall j :: 0 <= j < i + 1 ==> lines[j].Blank?;
    }
    if OrphanItem(lines) {
      var i :| 0 <= i < |lines| && lines[i].Item? && forall j :: 0 <= j < i ==> lines[j].Blank?;
      assert i > 0;
      assert rest[i - 1].Item? && forall j :: 0 <= j < i - 1 ==> rest[j].Blank?;
    }
  }

  /** A leading header or relation line decides whether a relation comes before every header. */
  lemma OrphanAfterNonBlank(lines: seq<Line>)
    requires lines != [] && !lines[0].Blank?
    ensures OrphanItem(lines) <==> lines[0].Item?
  {
  }

  /**
   * Blocks assembled from classified lines, `open` being the blocks read so
   * far: a header opens a block and each relation joins the last one.
   */
  function Assemble(lines: seq<Line>, open: seq<Component>): Result<seq<Component>, ParseError>
  {
    if lines == [] then Ok(open)
    else
      var rest := lines[1..];
      match lines[0]
      case Blank => Assemble(rest, open)
      case Header(n, inline) =>
        Assemble(rest, open + [Component(n, if inline.Some? then [inline.value] else [])])
      case Item(e) =>
        if open == [] then Err(RelationOutsideComponent)
        else Assemble(rest, AddToLast(open, e))
  }

  /**
   * Assembly fails exactly when a relation line precedes every header; otherwise
   * the blocks are named by the headers and hold every relation written, in order.
   */
  lemma {:induction false} AssembleMeaning(lines: seq<Line>, open: seq<Component>)
    ensures Assemble(lines, open).Err? <==> open == [] && OrphanItem(lines)
    ensures Assemble(lines, open).Ok? ==> Names(Assemble(lines, open).value) == Names(open) + HeaderNames(lines)
    ensures Assemble(lines, open).Ok? ==> AllExprs(Assemble(lines, open).value) == AllExprs(open) + LineExprs(lines)
  {
    if lines != [] {
      var rest := lines[1..];
      match lines[0]
      case Blank =>
        OrphanAfterBlank(lines);
        AssembleMeaning(rest, open);
      case Header(n, inline) =>
        OrphanAfterNonBlank(lines);
        var c := Component(n, if inline.Some? then [inline.value] else []);
        AppendComponent(open, c);
        AssembleMeaning(rest, open + [c]);
      case Item(e) =>
        OrphanAfterNonBlank(lines);
        if open != [] {
          AddToLastKeepsNames(open, e);
          AssembleMeaning(rest, AddToLast(open, e));
        }
    }
  }

  /** Each line parsed, or the first line's error. */
  function ParseLines(ss: seq<string>): (r: Result<seq<Line>, ParseError>)
    ensures r.Ok? <==> forall k :: 0 <= k < |ss| ==> ParseLine(ss[k]).Ok?
    ensures r.Ok? ==> |r.value| == |ss| && forall k :: 0 <= k < |ss| ==> ParseLine(ss[k]) == Ok(r.value[k])
    ensures r.Err? ==> exists k :: FirstFailure(ss, k) && r == Err(ParseLine(ss[k]).error)
  {
    if ss == [] then Ok([])
    else
      match ParseLine(ss[0])
      case Err(e) => Err(e)
      case Ok(l) =>
        match ParseLines(ss[1..])
        case Err(e) =>
          var k :| FirstFailure(ss[1..], k) && e == ParseLine(ss[1..][k]).error;
          assert FirstFailure(ss, k + 1);
          Err(e)
        case Ok(ls) => Ok([l] + ls)
  }

  /** Line `k` is the first that cannot be read. */
  predicate FirstFailure(ss: seq<string>, k: int)
  {
    0 <= k < |ss| && ParseLine(ss[k]).Err? && forall j :: 0 <= j < k ==> ParseLine(ss[j]).Ok?
  }

  /** The component blocks of a relation text. */
  function ParseText(text: string): Result<seq<Component>, ParseError>
  {
    match ParseLines(SplitLines(text))
    case Err(e) => Err(e)
    case Ok(lines) => Assemble(lines, [])
  }

  /**
   * A text fails to parse at its first unreadable line, or else exactly when a
   * relation line precedes every header; otherwise its blocks are named by the
   * headers and hold every relation written, in order.
   */
  lemma ParseTextMeaning(text: string)
    ensures ParseLines(SplitLines(text)).Err? ==> ParseText(text) == Err(ParseLines(SplitLines(text)).error)
    ensures ParseLines(SplitLines(text)).Ok? ==>
              var lines := ParseLines(SplitLines(text)).value;
              (ParseText(text).Err? <==> OrphanItem(lines))
              && (ParseText(text).Ok? ==>
                    Names(ParseText(text).value) == HeaderNames(lines) && AllExprs(ParseText(text).value) == LineExprs(lines))
  {
    if ParseLines(SplitLines(text)).Ok? {
      AssembleMeaning(ParseLines(SplitLines(text)).value, []);
    }
  }

  /** Assembly is a left fold over the lines: the lines can be assembled in two parts. */
  lemma {:induction false} AssembleSplit(lines: seq<Line>, n: nat, open: seq<Component>)
    requires n <= |lines|
    ensures Assemble(lines, open) == match Assemble(lines[..n], open)
                                     case Err(e) => Err(e)
                                     case Ok(mid) => Assemble(lines[n..], mid)
  {
    if n == 0 {
      assert lines[..0] == [] && lines[0..] == lines;
    } else {
      var rest := lines[1..];
      assert lines[..n][1..] == rest[..n - 1];
      assert rest[n - 1..] == lines[n..];
      match lines[0]
      case Blank =>
        AssembleSplit(rest, n - 1, open);
      case Header(h, inline) =>
        AssembleSplit(rest, n - 1, open + [Component(h, if inline.Some? then [inline.value] else [])]);
      case Item(e) =>
        if open != [] {
          AssembleSplit(rest, n - 1, AddToLast(open, e));
        }
    }
  }

  /** Lines without a header all join the last block, in order. */
  lemma {:induction false} AssembleWithinBlock(seg: seq<Line>, open: seq<Component>)
    requires open != [] && forall i :: 0 <= i < |seg| ==> !seg[i].Header?
    ensures Assemble(seg, open)
         == Ok(open[..|open| - 1] + [Component(open[|open| - 1].name, open[|open| - 1].exprs + LineExprs(seg))])
  {
    var last := open[|open| - 1];
    if seg == [] {
      assert last.exprs + [] == last.exprs;
      assert open[..|open| - 1] + [last] == open;
    } else {
      var rest := seg[1..];
      match seg[0]
      case Blank =>
        assert LineExprs(seg) == [] + LineExprs(rest);
        assert [] + LineExprs(rest) == LineExprs(rest);
        AssembleWithinBlock(rest, open);
        assert Assemble(seg, open) == Assemble(rest, open);
      case Item(e) =>
        var grown := AddToLast(open, e);
        assert grown[..|grown| - 1] == open[..|open| - 1];
        AssembleWithinBlock(rest, grown);
        assert last.exprs + [e] + LineExprs(rest) == last.exprs + LineExprs(seg);
    }
  }

  /** A block before the last open one is never changed again. */
  lemma {:induction false} AssembleKeepsEarlier(lines: seq<Line>, open: seq<Component>, k: nat)
    requires k + 1 < |open| && Assemble(lines, open).Ok?
    ensures k < |Assemble(lines, open).value| && Assemble(lines, open).value[k] == open[k]
  {
    if lines != [] {
      var rest := lines[1..];
      match lines[0]
      case Blank =>
        AssembleKeepsEarlier(rest, open, k);
      case Header(h, inline) =>
        AssembleKeepsEarlier(rest, open + [Component(h, if inline.Some? then [inline.value] else [])], k);
      case Item(e) =>
        AssembleKeepsEarlier(rest, AddToLast(open, e), k);
    }
  }

  /** The header on line `h` and the lines up to the next header form one block. */
  lemma AssembleOneBlock(lines: seq<Line>, h: nat, n: nat, open: seq<Component>)
    requires h < n <= |lines| && lines[h].Header?
    requires forall i :: h < i < n ==> !lines[i].Header?
    ensures Assemble(lines[h..], open)
         == Assemble(lines[n..], open + [Component(lines[h].name, LineExprs(lines[h..n]))])
  {
    var inline := if lines[h].inline.Some? then [lines[h].inline.value] else [];
    var started := open + [Component(lines[h].name, inline)];
    var tail := lines[h..];
    assert tail[0] == lines[h];
    assert Assemble(tail, open) == Assemble(tail[1..], started);
    var seg := lines[h + 1..n];
    assert tail[1..][..n - h - 1] == seg;
    assert tail[1..][n - h - 1..] == lines[n..];
    AssembleSplit(tail[1..], n - h - 1, started);
    AssembleWithinBlock(seg, started);
    assert started[..|started| - 1] == open;
    assert lines[h..n][1..] == seg;
    assert LineExprs(lines[h..n]) == inline + LineExprs(seg);
  }

  /** Lines that are none or start with a header leave every block read so far as it is. */
  lemma AssembleFromHeader(lines: seq<Line>, open: seq<Component>)
    requires lines == [] || lines[0].Header?
    requires open != [] && Assemble(lines, open).Ok?
    ensures |open| <= |Assemble(lines, open).value|
    ensures Assemble(lines, open).value[|open| - 1] == open[|open| - 1]
  {
    if lines != [] {
      var c := Component(lines[0].name, if lines[0].inline.Some? then [lines[0].inline.value] else []);
      AssembleKeepsEarlier(lines[1..], open + [c], |open| - 1);
    }
  }

  /**
   * The block opened by the header on line `h` holds the relations written on
   * that line and on every line up to the next header, in order.
   */
  lemma AssembleBlock(lines: seq<Line>, h: nat, n: nat)
    requires h < n <= |lines| && lines[h].Header?
    requires forall i :: h < i < n ==> !lines[i].Header?
    requires n == |lines| || lines[n].Header?
    requires Assemble(lines, []).Ok?
    ensures var k := |HeaderNames(lines[..h])|;
      k < |Assemble(lines, []).value|
      && Assemble(lines, []).value[k] == Component(lines[h].name, LineExprs(lines[h..n]))
  {
    AssembleSplit(lines, h, []);
    var mid := Assemble(lines[..h], []).value;
    AssembleMeaning(lines[..h], []);
    assert |Names(mid)| == |HeaderNames(lines[..h])|;
    var filled := mid + [Component(lines[h].name, LineExprs(lines[h..n]))];
    AssembleOneBlock(lines, h, n, mid);
    AssembleFromHeader(lines[n..], filled);
  }

  // ----- writing components back -----

  function Items(es: seq<Expr>): seq<Line>
  {
    seq(|es|, k requires 0 <= k < |es| => Item(es[k]))
  }

  /** Each block as a header line followed by one line per relation. */
  function Layout(cs: seq<Component>): seq<Line>
  {
    if cs == [] then [] else [Header(cs[0].name, None)] + Items(cs[0].exprs) + Layout(cs[1..])
  }

  function RenderLines(ls: seq<Line>): seq<string>
  {
    seq(|ls|, k requires 0 <= k < |ls| => RenderLine(ls[k]))
  }

  function RenderText(cs: seq<Component>): string
  {
    JoinLines(RenderLines(Layout(cs)))
  }

  predicate WellFormedComponent(c: Component)
  {
    IsIdentifier(c.name) && forall k :: 0 <= k < |c.exprs| ==> WellFormedExpr(c.exprs[k])
  }

  lemma {:induction false} AssembleItems(es: seq<Expr>, rest: seq<Line>, open: seq<Component>, n: string, fs: seq<Expr>)
    ensures Assemble(Items(es) + rest, open + [Component(n, fs)]) == Assemble(rest, open + [Component(n, fs + es)])
  {
    if es == [] {
      assert Items(es) + rest == rest;
      assert fs + es == fs;
    } else {
      var lines := Items(es) + rest;
      assert lines[0] == Item(es[0]);
      assert lines[1..] == Items(es[1..]) + rest;
      var before := open + [Component(n, fs)];
      assert AddToLast(before, es[0]) == open + [Component(n, fs + [es[0]])] by {
        assert before[..|before| - 1] == open;
      }
      AssembleItems(es[1..], rest, open, n, fs + [es[0]]);
      assert fs + [es[0]] + es[1..] == fs + es;
    }
  }

  /** Assembling the layout of blocks gives the blocks back. */
  lemma {:induction false} AssembleLayout(cs: seq<Component>, open: seq<Component>)
    ensures Assemble(Layout(cs), open) == Ok(open + cs)
  {
    if cs == [] {
      assert open + cs == open;
    } else {
      var lines := Layout(cs);
      var c := Component(cs[0].name, []);
      assert lines[0] == Header(cs[0].name, None);
      assert lines[1..] == Items(cs[0].exprs) + Layout(cs[1..]);
      calc {
        Assemble(lines, open);
        Assemble(lines[1..], open + [c]);
        Assemble(Items(cs[0].exprs) + Layout(cs[1..]), open + [c]);
        { AssembleItems(cs[0].exprs, Layout(cs[1..]), open, cs[0].name, []);
          assert [] + cs[0].exprs == cs[0].exprs; }
        Assemble(Layout(cs[1..]), open + [cs[0]]);
        { AssembleLayout(cs[1..], open + [cs[0]]); }
        Ok(open + [cs[0]] + cs[1..]);
        { assert open + [cs[0]] + cs[1..] == open + cs; }
        Ok(open + cs);
      }
    }
  }

  lemma {:induction false} LayoutWellFormed(cs: seq<Component>)
    requires forall k :: 0 <= k < |cs| ==> WellFormedComponent(cs[k])
    ensures forall k :: 0 <= k < |Layout(cs)| ==> WellFormedLine(Layout(cs)[k])
  {
    if cs != [] {
      LayoutWellFormed(cs[1..]);
      var head := [Header(cs[0].name, None)] + Items(cs[0].exprs);
      assert Layout(cs) == head + Layout(cs[1..]);
      forall k | 0 <= k < |Layout(cs)| ensures WellFormedLine(Layout(cs)[k]) {
        if k >= |head| {
          assert Layout(cs)[k] == Layout(cs[1..])[k - |head|];
        } else if k > 0 {
          assert Layout(cs)[k] == Item(cs[0].exprs[k - 1]);
        }
      }
    }
  }

  /** Each written line is read back, and none of them holds a line break. */
  lemma ParseRenderLines(lines: seq<Line>)
    requires forall k :: 0 <= k < |lines| ==> WellFormedLine(lines[k])
    ensures forall k :: 0 <= k < |lines| ==> '\n' !in RenderLines(lines)[k]
    ensures ParseLines(RenderLines(lines)) == Ok(lines)
  {
    var ss := RenderLines(lines);
    forall k | 0 <= k < |ss| ensures '\n' !in ss[k] && ParseLine(ss[k]) == Ok(lines[k]) {
      LineTokensWellFormed(lines[k]);
      RenderHasNoNewline(LineTokens(lines[k]));
      ParseRenderLine(lines[k]);
    }
    var parsed := ParseLines(ss);
    assert parsed.Ok?;
    assert parsed.value == lines;
  }

  /** Reading a written relation text gives its component blocks back. */
  lemma ParseRenderText(cs: seq<Component>)
    requires forall k :: 0 <= k < |cs| ==> WellFormedComponent(cs[k])
    ensures ParseText(RenderText(cs)) == Ok(cs)
  {
    var lines := Layout(cs);
    var ss := RenderLines(lines);
    LayoutWellFormed(cs);
    AssembleLayout(cs, []);
    assert [] + cs == cs;
    if cs == [] {
      assert SplitLines("") == [""];
      assert ParseLine("") == Ok(Blank);
    } else {
      ParseRenderLines(lines);
      SplitJoinLines(ss);
    }
  }
}
