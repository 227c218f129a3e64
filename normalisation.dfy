/**
 * Step 1 of the algorithm: every relation expression becomes a normalised
 * relation `x <<p y` ("x runs before y, with priority p among x's
 * successors"), and bare identifiers are set aside.
 *
 * Unary `>> y` is read mechanically: step 1.2 swaps the missing left
 * operand with `y`, and step 1.4 then fills the missing right operand with
 * TAIL, so `>> y` normalises exactly as `y <<` does.
 */
module Normalisation {
  import opened Outcomes
  import opened Operands
  import opened Lexer
  import opened Syntax

  /** A relation with both sides optional, as step 1.1 extracts it. */
  datatype RawRelation = RawRelation(left: Option<string>, op: Op, priority: Option<nat>, right: Option<string>)

  /** `x <<p y`: x runs before y; p orders the successors of x. */
  datatype Relation = Relation(x: PluginRef, p: nat, y: PluginRef)

  /** Step 1.1: left operand, operator and right operand of a non-bare expression. */
  function Extract(e: Expr): (raw: RawRelation)
    requires !e.Bare?
    ensures raw.left.None? <==> e.UnaryFollows?
    ensures raw.right.None? <==> e.UnaryPrecedes?
    ensures raw.priority == e.priority
  {
    match e
    case Binary(a, op, p, b) => RawRelation(Some(a), op, p, Some(b))
    case UnaryPrecedes(a, p) => RawRelation(Some(a), Precedes, p, None)
    case UnaryFollows(p, b) => RawRelation(None, Follows, p, Some(b))
  }

  /** Step 1.1 loses nothing: different expressions give different raw relations. */
  lemma ExtractInjective(e1: Expr, e2: Expr)
    requires !e1.Bare? && !e2.Bare? && Extract(e1) == Extract(e2)
    ensures e1 == e2
  {
    match e1
    case Binary(_, _, _, _) =>
    case UnaryPrecedes(_, _) =>
    case UnaryFollows(_, _) =>
  }

  /** Step 1.2: `x [p]>> y` becomes `y <<[p] x`, and a missing priority becomes 0. */
  function Orient(raw: RawRelation): (r: RawRelation)
    ensures r.op == Precedes && r.priority == Some(raw.priority.GetOr(0))
    ensures raw.op == Precedes ==> r.left == raw.left && r.right == raw.right
    ensures raw.op == Follows ==> r.left == raw.right && r.right == raw.left
  {
    var p := Some(raw.priority.GetOr(0));
    if raw.op == Follows then RawRelation(raw.right, Precedes, p, raw.left)
    else RawRelation(raw.left, Precedes, p, raw.right)
  }

  /** Steps 1.3 and 1.4: resolve an operand, or stand in `missing` for an absent one. */
  function Fill(operand: Option<string>, defaultTheme: string, missing: PluginRef): PluginRef
  {
    match operand
    case Some(text) => Resolve(text, defaultTheme)
    case None => missing
  }

  /** A raw relation in the form `x <<p y`, HEAD standing for a missing x and TAIL for a missing y. */
  function NormaliseRaw(raw: RawRelation, defaultTheme: string): (r: Relation)
    ensures r.x != Tail && r.y != Head
    ensures r.p == raw.priority.GetOr(0)
  {
    var o := Orient(raw);
    Relation(Fill(o.left, defaultTheme, Head), o.priority.value, Fill(o.right, defaultTheme, Tail))
  }

  function Normalise(e: Expr, defaultTheme: string): (r: Relation)
    requires !e.Bare?
    ensures r.x.Plugin? && r.y != Head
  {
    NormaliseRaw(Extract(e), defaultTheme)
  }

  /** Steps 1.2 and 1.3 on a binary relation: both operands resolved, the one that runs first as x. */
  lemma NormaliseBinary(a: string, op: Op, p: Option<nat>, b: string, defaultTheme: string)
    ensures op == Precedes ==>
              Normalise(Binary(a, op, p, b), defaultTheme) == Relation(Resolve(a, defaultTheme), p.GetOr(0), Resolve(b, defaultTheme))
    ensures op == Follows ==>
              Normalise(Binary(a, op, p, b), defaultTheme) == Relation(Resolve(b, defaultTheme), p.GetOr(0), Resolve(a, defaultTheme))
  {
  }

  /** `x p>> y` and `y <<p x` are the same relation (`y` runs first). */
  lemma MirroredSpellingsAgree(a: string, p: Option<nat>, b: string, defaultTheme: string)
    ensures Normalise(Binary(a, Follows, p, b), defaultTheme) == Normalise(Binary(b, Precedes, p, a), defaultTheme)
    ensures Normalise(Binary(a, Follows, p, b), defaultTheme)
         == Relation(Resolve(b, defaultTheme), p.GetOr(0), Resolve(a, defaultTheme))
  {
  }

  /** A bare `<<` or `>>` is the same as one with priority 0. */
  lemma MissingPriorityIsZero(e: Expr, defaultTheme: string)
    requires !e.Bare? && e.priority == None
    ensures Normalise(e, defaultTheme) == Normalise(e.(priority := Some(0)), defaultTheme)
  {
  }

  /** `x <<p` makes x run before TAIL; `p>> y`, rewritten mechanically, gives `y <<p TAIL`. */
  lemma UnaryRelationsAnchorTail(x: string, p: Option<nat>, defaultTheme: string)
    ensures Normalise(UnaryPrecedes(x, p), defaultTheme) == Relation(Resolve(x, defaultTheme), p.GetOr(0), Tail)
    ensures Normalise(UnaryFollows(p, x), defaultTheme) == Relation(Resolve(x, defaultTheme), p.GetOr(0), Tail)
  {
  }

  /** A raw relation missing its left operand, written `<< y` (the grammar has no such line), gets HEAD. */
  lemma MissingLeftIsHead(p: Option<nat>, y: string, defaultTheme: string)
    ensures NormaliseRaw(RawRelation(None, Precedes, p, Some(y)), defaultTheme)
         == Relation(Head, p.GetOr(0), Resolve(y, defaultTheme))
  {
  }

  /** The normalised relation of a relation line, if it holds a relation. */
  function LineRelation(s: string, defaultTheme: string): Option<Relation>
  {
    match ParseLine(s)
    case Ok(Item(e)) => if e.Bare? then None else Some(Normalise(e, defaultTheme))
    case _ => None
  }

  lemma RenderedLineRelation(e: Expr, defaultTheme: string)
    requires WellFormedExpr(e) && !e.Bare?
    ensures LineRelation(RenderLine(Item(e)), defaultTheme) == Some(Normalise(e, defaultTheme))
  {
    ParseRenderLine(Item(e));
  }

  /** How a binary relation without priority is written. */
  lemma SpellBinary(a: string, op: Token, b: string)
    requires op == LeftShift || op == RightShift
    ensures Render([Word(a), op, Word(b)]) == a + " " + Spelling(op) + " " + b
  {
    var ts := [Word(a), op, Word(b)];
    assert Render(ts[2..]) == b;
    assert Render(ts[1..]) == Spelling(op) + " " + b;
  }

  /** The line `a << b`. */
  lemma PrecedesLine(a: string, b: string, defaultTheme: string)
    requires IsOperand(a) && IsOperand(b)
    ensures LineRelation(a + " << " + b, defaultTheme) == Some(Normalise(Binary(a, Precedes, None, b), defaultTheme))
  {
    var e := Binary(a, Precedes, None, b);
    assert LineTokens(Item(e)) == [Word(a), LeftShift, Word(b)];
    SpellBinary(a, LeftShift, b);
    assert RenderLine(Item(e)) == a + " << " + b;
    RenderedLineRelation(e, defaultTheme);
  }

  /** The line `a >> b`. */
  lemma FollowsLine(a: string, b: string, defaultTheme: string)
    requires IsOperand(a) && IsOperand(b)
    ensures LineRelation(a + " >> " + b, defaultTheme) == Some(Normalise(Binary(a, Follows, None, b), defaultTheme))
  {
    var e := Binary(a, Follows, None, b);
    assert LineTokens(Item(e)) == [Word(a), RightShift, Word(b)];
    SpellBinary(a, RightShift, b);
    assert RenderLine(Item(e)) == a + " >> " + b;
    RenderedLineRelation(e, defaultTheme);
  }

  /** How `a << 0 b` is written. */
  lemma SpellPrecedesZero(a: string, b: string)
    ensures Render([Word(a), LeftShift, Number(0), Word(b)]) == a + " << 0 " + b
  {
    var ts := [Word(a), LeftShift, Number(0), Word(b)];
    assert Decimal(0) == "0";
    assert Render(ts[3..]) == b;
    assert Render(ts[2..]) == "0" + " " + b;
    assert Render(ts[1..]) == "<<" + " " + ("0" + " " + b);
  }

  /** The line `a << 0 b`. */
  lemma PrecedesZeroLine(a: string, b: string, defaultTheme: string)
    requires IsOperand(a) && IsOperand(b)
    ensures LineRelation(a + " << 0 " + b, defaultTheme) == Some(Normalise(Binary(a, Precedes, Some(0), b), defaultTheme))
  {
    var e := Binary(a, Precedes, Some(0), b);
    assert LineTokens(Item(e)) == [Word(a), LeftShift, Number(0), Word(b)];
    SpellPrecedesZero(a, b);
    RenderedLineRelation(e, defaultTheme);
  }

  /** The lines `a >> b` and `b << a` give the same relation: b runs before a. */
  lemma {:induction false} MirroredLinesAgree(a: string, b: string, defaultTheme: string)
    requires IsOperand(a) && IsOperand(b)
    ensures LineRelation(a + " >> " + b, defaultTheme) == LineRelation(b + " << " + a, defaultTheme)
    ensures LineRelation(a + " >> " + b, defaultTheme) == Some(Relation(Resolve(b, defaultTheme), 0, Resolve(a, defaultTheme)))
  {
    FollowsLine(a, b, defaultTheme);
    PrecedesLine(b, a, defaultTheme);
  }

  /** The lines `a << b` and `a << 0 b` give the same relation. */
  lemma {:induction false} DefaultPriorityLines(a: string, b: string, defaultTheme: string)
    requires IsOperand(a) && IsOperand(b)
    ensures LineRelation(a + " << " + b, defaultTheme) == LineRelation(a + " << 0 " + b, defaultTheme)
    ensures LineRelation(a + " << " + b, defaultTheme) == Some(Relation(Resolve(a, defaultTheme), 0, Resolve(b, defaultTheme)))
  {
    PrecedesLine(a, b, defaultTheme);
    PrecedesZeroLine(a, b, defaultTheme);
  }

  /** Step 1.1 and 1.4 for a component: the normalised relations, in source order. */
  function Relations(exprs: seq<Expr>, defaultTheme: string): (rels: seq<Relation>)
    ensures |rels| <= |exprs|
  {
    if exprs == [] then []
    else
      var rest := Relations(exprs[1..], defaultTheme);
      if exprs[0].Bare? then rest else [Normalise(exprs[0], defaultTheme)] + rest
  }

  /** Every relation line gives its relation, and every relation comes from a relation line. */
  lemma {:induction false} RelationsMembers(exprs: seq<Expr>, defaultTheme: string)
    ensures forall e :: e in exprs && !e.Bare? ==> Normalise(e, defaultTheme) in Relations(exprs, defaultTheme)
    ensures forall r :: r in Relations(exprs, defaultTheme) ==>
              exists e :: e in exprs && !e.Bare? && r == Normalise(e, defaultTheme)
  {
    if exprs != [] {
      RelationsMembers(exprs[1..], defaultTheme);
      assert exprs == [exprs[0]] + exprs[1..];
    }
  }

  /** Step 1.5: the operands of the bare-identifier lines, which seed `left_behind`. */
  function LeftBehind(exprs: seq<Expr>, defaultTheme: string): set<PluginRef>
  {
    if exprs == [] then {}
    else
      var rest := LeftBehind(exprs[1..], defaultTheme);
      if exprs[0].Bare? then {Resolve(exprs[0].operand, defaultTheme)} + rest else rest
  }

  /** The plugins set aside are exactly the operands of the bare-identifier lines. */
  lemma {:induction false} LeftBehindMembers(exprs: seq<Expr>, defaultTheme: string)
    ensures forall e :: e in exprs && e.Bare? ==> Resolve(e.operand, defaultTheme) in LeftBehind(exprs, defaultTheme)
    ensures forall q :: q in LeftBehind(exprs, defaultTheme) ==>
              exists e :: e in exprs && e.Bare? && q == Resolve(e.operand, defaultTheme)
  {
    if exprs != [] {
      var rest := exprs[1..];
      LeftBehindMembers(rest, defaultTheme);
      assert forall e :: e in exprs <==> e == exprs[0] || e in rest;
      if exprs[0].Bare? {
        assert LeftBehind(exprs, defaultTheme) == {Resolve(exprs[0].operand, defaultTheme)} + LeftBehind(rest, defaultTheme);
      } else {
        assert LeftBehind(exprs, defaultTheme) == LeftBehind(rest, defaultTheme);
      }
    }
  }

  /** Relations come in source order: a line written after the others adds its relation last. */
  lemma {:induction false} RelationsInSourceOrder(exprs: seq<Expr>, e: Expr, defaultTheme: string)
    ensures Relations(exprs + [e], defaultTheme)
         == Relations(exprs, defaultTheme) + (if e.Bare? then [] else [Normalise(e, defaultTheme)])
  {
    var tail := if e.Bare? then [] else [Normalise(e, defaultTheme)];
    if exprs == [] {
      assert ([] + [e])[1..] == [];
      assert Relations([e], defaultTheme) == tail + Relations([], defaultTheme);
      assert [] + [e] == [e];
    } else {
      var whole := exprs + [e];
      assert whole[0] == exprs[0];
      assert whole[1..] == exprs[1..] + [e];
      RelationsInSourceOrder(exprs[1..], e, defaultTheme);
      var rest := Relations(exprs[1..], defaultTheme);
      if exprs[0].Bare? {
        assert Relations(whole, defaultTheme) == rest + tail;
      } else {
        var first := [Normalise(exprs[0], defaultTheme)];
        assert Relations(whole, defaultTheme) == first + (rest + tail);
        assert first + (rest + tail) == (first + rest) + tail;
      }
    }
  }

  /** A line written after the others adds its operand to the set aside exactly when it is bare. */
  lemma {:induction false} LeftBehindAppend(exprs: seq<Expr>, e: Expr, defaultTheme: string)
    ensures LeftBehind(exprs + [e], defaultTheme)
         == LeftBehind(exprs, defaultTheme) + (if e.Bare? then {Resolve(e.operand, defaultTheme)} else {})
  {
    if exprs == [] {
      assert ([] + [e])[1..] == [];
    } else {
      LeftBehindAppend(exprs[1..], e, defaultTheme);
      assert (exprs + [e])[1..] == exprs[1..] + [e];
    }
  }
}
