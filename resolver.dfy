/**
 * The whole algorithm: the relation text of a theme directory is parsed
 * into components, and for each component the relations go through steps
 * 1 to 3 to give its plugin execution order.
 */
module Resolver {
  import opened Outcomes
  import opened Operands
  import opened Collation
  import opened Syntax
  import opened Normalisation
  import opened Grouping
  import opened Chains
  import opened Ordering

  /** Step 2.1: the relation groups of a component, sorted by key. */
  function RelationGroups(exprs: seq<Expr>, defaultTheme: string): seq<RelationGroup>
  {
    SortGroups(GroupRelations(Relations(exprs, defaultTheme)))
  }

  /** The groups of step 2.1 are well formed, ascending by key, and sorting keeps them as they are. */
  lemma RelationGroupsSorted(exprs: seq<Expr>, defaultTheme: string)
    ensures var gs := RelationGroups(exprs, defaultTheme);
      WellGrouped(gs) && Ascending(KeySeq(gs))
    ensures forall g :: g in RelationGroups(exprs, defaultTheme) <==> g in GroupRelations(Relations(exprs, defaultTheme))
  {
    SortKeepsWellGrouped(GroupRelations(Relations(exprs, defaultTheme)));
  }

  /** Step 2.2: the facts derived from a component's relations. */
  function Facts(exprs: seq<Expr>, defaultTheme: string): seq<Fact>
  {
    ExpandAll(RelationGroups(exprs, defaultTheme))
  }

  /** Step 2.2: a fact is a link of the chain of one relation group of the component. */
  lemma FactsMeaning(exprs: seq<Expr>, defaultTheme: string, f: Fact)
    ensures f in Facts(exprs, defaultTheme)
        <==> exists g :: g in GroupRelations(Relations(exprs, defaultTheme)) && f in Chain(g.x, Ys(g.entries))
  {
    RelationGroupsSorted(exprs, defaultTheme);
    ExpandedFrom(RelationGroups(exprs, defaultTheme), GroupRelations(Relations(exprs, defaultTheme)), f);
  }

  /** Expanding groups that are the same as `raw` gives the links of the chains of `raw`. */
  lemma ExpandedFrom(gs: seq<RelationGroup>, raw: seq<RelationGroup>, f: Fact)
    requires forall g :: g in gs <==> g in raw
    ensures f in ExpandAll(gs) <==> exists g :: g in raw && f in Chain(g.x, Ys(g.entries))
  {
    if f in ExpandAll(gs) {
      var i :| 0 <= i < |gs| && f in Chain(gs[i].x, Ys(gs[i].entries));
      assert gs[i] in raw;
    }
    if exists g :: g in raw && f in Chain(g.x, Ys(g.entries)) {
      var g :| g in raw && f in Chain(g.x, Ys(g.entries));
      var i :| 0 <= i < |gs| && gs[i] == g;
      assert 0 <= i < |gs| && f in Chain(gs[i].x, Ys(gs[i].entries));
    }
  }

  /** Step 2.3: the facts grouped again and sorted by key; the input of step 3. */
  function OrderedGroups(exprs: seq<Expr>, defaultTheme: string): seq<RelationGroup>
  {
    SortGroups(Regroup(Facts(exprs, defaultTheme)))
  }

  /** The groups of step 2.3 are well formed, ascending by key, and sorting keeps them as they are. */
  lemma OrderedGroupsSorted(exprs: seq<Expr>, defaultTheme: string)
    ensures var gs := OrderedGroups(exprs, defaultTheme);
      WellGrouped(gs) && Ascending(KeySeq(gs))
    ensures forall g :: g in OrderedGroups(exprs, defaultTheme) <==> g in Regroup(Facts(exprs, defaultTheme))
  {
    SortKeepsWellGrouped(Regroup(Facts(exprs, defaultTheme)));
  }

  /**
   * Relation groups hold sets: writing a line a second time changes neither the groups,
   * nor the facts, nor what step 3 works on.
   */
  lemma RepeatedLineChangesNothing(exprs: seq<Expr>, e: Expr, defaultTheme: string)
    requires e in exprs
    ensures RelationGroups(exprs + [e], defaultTheme) == RelationGroups(exprs, defaultTheme)
    ensures Facts(exprs + [e], defaultTheme) == Facts(exprs, defaultTheme)
    ensures OrderedGroups(exprs + [e], defaultTheme) == OrderedGroups(exprs, defaultTheme)
    ensures LeftBehind(exprs + [e], defaultTheme) == LeftBehind(exprs, defaultTheme)
  {
    RepeatedLineSameGroups(exprs, e, defaultTheme);
    RepeatedLineSameLeftBehind(exprs, e, defaultTheme);
  }

  lemma RepeatedLineSameGroups(exprs: seq<Expr>, e: Expr, defaultTheme: string)
    requires e in exprs
    ensures GroupRelations(Relations(exprs + [e], defaultTheme)) == GroupRelations(Relations(exprs, defaultTheme))
  {
    var rels := Relations(exprs, defaultTheme);
    RelationsInSourceOrder(exprs, e, defaultTheme);
    if e.Bare? {
      assert rels + [] == rels;
    } else {
      var r := Normalise(e, defaultTheme);
      RelationsMembers(exprs, defaultTheme);
      RepeatedRelationIgnored(rels, r);
    }
  }

  lemma RepeatedLineSameLeftBehind(exprs: seq<Expr>, e: Expr, defaultTheme: string)
    requires e in exprs
    ensures LeftBehind(exprs + [e], defaultTheme) == LeftBehind(exprs, defaultTheme)
  {
    LeftBehindAppend(exprs, e, defaultTheme);
    if e.Bare? {
      LeftBehindMembers(exprs, defaultTheme);
    }
  }

  /** `order` is what step 3 may produce for the component. */
  predicate Resolves(exprs: seq<Expr>, defaultTheme: string, order: seq<PluginRef>)
  {
    IsExecutionOrder(OrderedGroups(exprs, defaultTheme), LeftBehind(exprs, defaultTheme), order)
  }

  lemma BeforeTransitive(order: seq<PluginRef>, a: PluginRef, b: PluginRef, c: PluginRef)
    requires NoDuplicates(order) && Before(order, a, b) && Before(order, b, c)
    ensures Before(order, a, c)
  {
    var i, j :| 0 <= i < j < |order| && order[i] == a && order[j] == b;
    var j', k :| 0 <= j' < k < |order| && order[j'] == b && order[k] == c;
    assert j == j';
  }

  /** An order that respects every fact respects every path of facts. */
  lemma {:induction false} PathRespected(order: seq<PluginRef>, fs: seq<Fact>, path: seq<PluginRef>)
    requires NoDuplicates(order) && |path| >= 2 && Linked(fs, path)
    requires forall f :: f in fs ==> Before(order, f.earlier, f.later)
    ensures Before(order, path[0], path[|path| - 1])
  {
    assert Fact(path[0], path[1]) in fs;
    if |path| > 2 {
      var tail := path[1..];
      assert Linked(fs, tail) by {
        forall k | 0 <= k < |tail| - 1 ensures Fact(tail[k], tail[k + 1]) in fs {
          assert tail[k] == path[k + 1] && tail[k + 1] == path[k + 2];
        }
      }
      PathRespected(order, fs, tail);
      BeforeTransitive(order, path[0], path[1], path[|path| - 1]);
    }
  }

  /** Respecting the groups of `gs` respects every successor of any list with the same groups. */
  lemma SuccessorRespected(gs: seq<RelationGroup>, raw: seq<RelationGroup>, order: seq<PluginRef>, a: PluginRef, b: PluginRef)
    requires forall g :: g in gs <==> g in raw
    requires forall i, k :: 0 <= i < |gs| && 0 <= k < |gs[i].entries| ==> Before(order, gs[i].x, gs[i].entries[k].y)
    requires exists i :: 0 <= i < |raw| && raw[i].x == a && b in Ys(raw[i].entries)
    ensures Before(order, a, b)
  {
    var i :| 0 <= i < |raw| && raw[i].x == a && b in Ys(raw[i].entries);
    var k :| 0 <= k < |raw[i].entries| && Ys(raw[i].entries)[k] == b;
    assert raw[i] in gs;
    var i' :| 0 <= i' < |gs| && gs[i'] == raw[i];
    assert gs[i'].entries[k].y == b;
  }

  /** A fact found again, as a successor, in the regrouped groups is respected. */
  lemma FactRespected(facts: seq<Fact>, gs: seq<RelationGroup>, order: seq<PluginRef>, f: Fact)
    requires forall g :: g in gs <==> g in Regroup(facts)
    requires forall i, k :: 0 <= i < |gs| && 0 <= k < |gs[i].entries| ==> Before(order, gs[i].x, gs[i].entries[k].y)
    requires f in facts
    ensures Before(order, f.earlier, f.later)
  {
    RegroupComplete(facts, f.earlier, f.later);
    SuccessorRespected(gs, Regroup(facts), order, f.earlier, f.later);
  }

  /** In a resolved order every derived fact holds. */
  lemma FactsRespected(exprs: seq<Expr>, defaultTheme: string, order: seq<PluginRef>)
    requires Resolves(exprs, defaultTheme, order) && !Conflicted(OrderedGroups(exprs, defaultTheme))
    ensures forall f :: f in Facts(exprs, defaultTheme) ==> Before(order, f.earlier, f.later)
  {
    var facts := Facts(exprs, defaultTheme);
    var gs := OrderedGroups(exprs, defaultTheme);
    ExecutionOrderRespectsGroups(gs, LeftBehind(exprs, defaultTheme), order);
    OrderedGroupsSorted(exprs, defaultTheme);
    forall f | f in facts ensures Before(order, f.earlier, f.later) {
      FactRespected(facts, gs, order, f);
    }
  }

  /** Once the chains are respected, each key comes before every one of its successors. */
  lemma ChainRespected(gs: seq<RelationGroup>, order: seq<PluginRef>, j: nat, k: nat)
    requires NoDuplicates(order)
    requires forall f :: f in ExpandAll(gs) ==> Before(order, f.earlier, f.later)
    requires j < |gs| && k < |gs[j].entries|
    ensures Before(order, gs[j].x, gs[j].entries[k].y)
  {
    var facts := ExpandAll(gs);
    var g := gs[j];
    var ys := Ys(g.entries);
    ChainReaches(g.x, ys, k);
    var path := [g.x] + ys[..k + 1];
    assert Linked(facts, path) by {
      forall m | 0 <= m < |path| - 1 ensures Fact(path[m], path[m + 1]) in facts {
        assert Fact(path[m], path[m + 1]) in Chain(gs[j].x, Ys(gs[j].entries));
      }
    }
    PathRespected(order, facts, path);
    assert path[|path| - 1] == g.entries[k].y;
  }

  /** A relation of a group is respected once the chains of the groups are. */
  lemma RelationRespected(rels: seq<Relation>, gs: seq<RelationGroup>, order: seq<PluginRef>, r: Relation)
    requires forall g :: g in gs <==> g in GroupRelations(rels)
    requires NoDuplicates(order)
    requires forall f :: f in ExpandAll(gs) ==> Before(order, f.earlier, f.later)
    requires r in rels
    ensures Before(order, r.x, r.y)
  {
    var raw := GroupRelations(rels);
    GroupingIsPartition(rels, r);
    var i :| 0 <= i < |raw| && raw[i].x == r.x && Entry(r.p, r.y) in raw[i].entries;
    assert raw[i] in gs;
    var j :| 0 <= j < |gs| && gs[j] == raw[i];
    var k :| 0 <= k < |gs[j].entries| && gs[j].entries[k] == Entry(r.p, r.y);
    ChainRespected(gs, order, j, k);
  }

  /** In a resolved order every relation `x <<p y` of the component has x before y. */
  lemma RelationsRespected(exprs: seq<Expr>, defaultTheme: string, order: seq<PluginRef>)
    requires Resolves(exprs, defaultTheme, order) && !Conflicted(OrderedGroups(exprs, defaultTheme))
    ensures forall e :: e in exprs && !e.Bare? ==> Before(order, Normalise(e, defaultTheme).x, Normalise(e, defaultTheme).y)
  {
    OrderedGroupsSorted(exprs, defaultTheme);
    ExecutionOrderNoDuplicates(OrderedGroups(exprs, defaultTheme), LeftBehind(exprs, defaultTheme), order);
    var rels := Relations(exprs, defaultTheme);
    RelationsMembers(exprs, defaultTheme);
    FactsRespected(exprs, defaultTheme, order);
    RelationGroupsSorted(exprs, defaultTheme);
    forall e | e in exprs && !e.Bare? ensures Before(order, Normalise(e, defaultTheme).x, Normalise(e, defaultTheme).y) {
      RelationRespected(rels, RelationGroups(exprs, defaultTheme), order, Normalise(e, defaultTheme));
    }
  }

  /**
   * A resolved order of a component without conflict: each plugin once,
   * every relation and every derived fact respected, and every plugin of a
   * bare line present.
   */
  lemma {:induction false} ResolvedOrderIsValid(exprs: seq<Expr>, defaultTheme: string, order: seq<PluginRef>)
    requires Resolves(exprs, defaultTheme, order) && !Conflicted(OrderedGroups(exprs, defaultTheme))
    ensures NoDuplicates(order)
    ensures forall e :: e in exprs && !e.Bare? ==> Before(order, Normalise(e, defaultTheme).x, Normalise(e, defaultTheme).y)
    ensures forall f :: f in Facts(exprs, defaultTheme) ==> Before(order, f.earlier, f.later)
    ensures forall e :: e in exprs && e.Bare? ==> Resolve(e.operand, defaultTheme) in order
  {
    var gs := OrderedGroups(exprs, defaultTheme);
    var init := LeftBehind(exprs, defaultTheme);
    ExecutionOrderNoDuplicates(gs, init, order);
    ExecutionOrderMembers(gs, init, order);
    LeftBehindMembers(exprs, defaultTheme);
    FactsRespected(exprs, defaultTheme, order);
    RelationsRespected(exprs, defaultTheme, order);
  }

  /** Two ascending keys that are exactly `a` and `b`, with `a` below `b`, are `[a, b]`. */
  lemma AscendingPair(ks: seq<PluginRef>, a: PluginRef, b: PluginRef)
    requires Ascending(ks) && RefLess(a, b)
    requires forall k :: k in ks <==> k == a || k == b
    ensures ks == [a, b]
  {
    AscendingHasNoDuplicates(ks);
    RefLessIrreflexive(a);
    assert a in ks && b in ks;
    var ia :| 0 <= ia < |ks| && ks[ia] == a;
    var ib :| 0 <= ib < |ks| && ks[ib] == b;
    if |ks| > 2 {
      var j := if 0 != ia && 0 != ib then 0 else if 1 != ia && 1 != ib then 1 else 2;
      assert ks[j] in ks;
    }
    if ib < ia {
      RefLessTransitive(a, b, a);
    }
  }

  /** The relations of `a << c` and `b <<`, with default theme `t`. */
  lemma ExampleRelations()
    ensures Relations([Binary("a", Precedes, None, "c"), UnaryPrecedes("b", None)], "t")
         == [Relation(Plugin("t", "a"), 0, Plugin("t", "c")), Relation(Plugin("t", "b"), 0, Tail)]
  {
    var exprs := [Binary("a", Precedes, None, "c"), UnaryPrecedes("b", None)];
    NormaliseBinary("a", Precedes, None, "c", "t");
    UnaryRelationsAnchorTail("b", None, "t");
    assert exprs[1..] == [UnaryPrecedes("b", None)];
    assert exprs[1..][1..] == [];
  }

  /** Their groups: `a` with successor `c`, then `b` with successor TAIL. */
  lemma ExampleGroups()
    ensures GroupRelations([Relation(Plugin("t", "a"), 0, Plugin("t", "c")), Relation(Plugin("t", "b"), 0, Tail)])
         == [RelationGroup(Plugin("t", "a"), [Entry(0, Plugin("t", "c"))]), RelationGroup(Plugin("t", "b"), [Entry(0, Tail)])]
  {
    var ra, rb := Relation(Plugin("t", "a"), 0, Plugin("t", "c")), Relation(Plugin("t", "b"), 0, Tail);
    var ga, gb := RelationGroup(Plugin("t", "a"), [Entry(0, Plugin("t", "c"))]), RelationGroup(Plugin("t", "b"), [Entry(0, Tail)]);
    assert [ra, rb][..1] == [ra];
    assert [ra][..0] == [];
    assert GroupRelations([ra]) == AddRelation([], ra) == [ga];
    assert AddRelation([ga], rb) == [ga] + AddRelation([], rb) == [ga, gb];
    assert GroupRelations([ra, rb]) == AddRelation(GroupRelations([ra]), rb);
  }

  /** The facts of the example have `a` and `b` as their earlier plugins. */
  lemma ExampleFactKeys()
    ensures (set f | f in Facts([Binary("a", Precedes, None, "c"), UnaryPrecedes("b", None)], "t") :: f.earlier)
         == {Plugin("t", "a"), Plugin("t", "b")}
  {
    var exprs := [Binary("a", Precedes, None, "c"), UnaryPrecedes("b", None)];
    var a, b, c := Plugin("t", "a"), Plugin("t", "b"), Plugin("t", "c");
    var ga, gb := RelationGroup(a, [Entry(0, c)]), RelationGroup(b, [Entry(0, Tail)]);
    ExampleRelations();
    ExampleGroups();
    var sorted := RelationGroups(exprs, "t");
    assert multiset(sorted) == multiset([ga, gb]);
    assert Chain(a, Ys(ga.entries)) == [Fact(a, c)];
    assert Chain(b, Ys(gb.entries)) == [Fact(b, Tail)];
    ExampleChains(sorted, Facts(exprs, "t"));
  }

  /** Expanding the two groups of the example, in either order, gives facts from `a` and from `b`. */
  lemma ExampleChains(sorted: seq<RelationGroup>, facts: seq<Fact>)
    requires multiset(sorted) == multiset([RelationGroup(Plugin("t", "a"), [Entry(0, Plugin("t", "c"))]), RelationGroup(Plugin("t", "b"), [Entry(0, Tail)])])
    requires facts == ExpandAll(sorted)
    ensures (set f | f in facts :: f.earlier) == {Plugin("t", "a"), Plugin("t", "b")}
  {
    var a, b, c := Plugin("t", "a"), Plugin("t", "b"), Plugin("t", "c");
    var ga, gb := RelationGroup(a, [Entry(0, c)]), RelationGroup(b, [Entry(0, Tail)]);
    forall i | 0 <= i < |sorted| ensures sorted[i] == ga || sorted[i] == gb {
      assert sorted[i] in multiset(sorted);
    }
    forall f | f in facts ensures f.earlier == a || f.earlier == b {
      var i :| 0 <= i < |sorted| && f in Chain(sorted[i].x, Ys(sorted[i].entries));
      ChainStarts(sorted[i], f);
    }
    assert ga in multiset(sorted) && gb in multiset(sorted);
    var ia :| 0 <= ia < |sorted| && sorted[ia] == ga;
    var ib :| 0 <= ib < |sorted| && sorted[ib] == gb;
    assert Chain(a, Ys(ga.entries))[0] == Fact(a, c);
    assert Chain(b, Ys(gb.entries))[0] == Fact(b, Tail);
  }

  /** A group with one entry expands to the one fact from its key. */
  lemma ChainStarts(g: RelationGroup, f: Fact)
    requires |g.entries| == 1 && f in Chain(g.x, Ys(g.entries))
    ensures f.earlier == g.x
  {
  }

  /**
   * `b <<` does not make `b` run first: with `a << c` beside it, every
   * resolved order starts with `a`, then `b`, since groups run in key order
   * and `b <<` only puts `b` before TAIL.
   */
  lemma {:induction false} UnaryPrecedesNotFirst(order: seq<PluginRef>)
    requires Resolves([Binary("a", Precedes, None, "c"), UnaryPrecedes("b", None)], "t", order)
    ensures |order| >= 2 && order[0] == Plugin("t", "a") && order[1] == Plugin("t", "b")
  {
    ExampleFactKeys();
    assert RefLess(Plugin("t", "a"), Plugin("t", "b")) by {
      assert StrLess("a", "b");
    }
    TwoKeysFirst([Binary("a", Precedes, None, "c"), UnaryPrecedes("b", None)], "t", order, Plugin("t", "a"), Plugin("t", "b"));
  }

  /** When the facts start from exactly `a` and `b`, with `a` below `b`, a resolved order starts `a`, `b`. */
  lemma TwoKeysFirst(exprs: seq<Expr>, defaultTheme: string, order: seq<PluginRef>, a: PluginRef, b: PluginRef)
    requires Resolves(exprs, defaultTheme, order)
    requires (set f | f in Facts(exprs, defaultTheme) :: f.earlier) == {a, b}
    requires RefLess(a, b)
    ensures |order| >= 2 && order[0] == a && order[1] == b
  {
    var raw := Regroup(Facts(exprs, defaultTheme));
    var gs := OrderedGroups(exprs, defaultTheme);
    assert gs == SortGroups(raw);
    assert Keys(gs) == Keys(raw) == {a, b};
    OrderedGroupsSorted(exprs, defaultTheme);
    OrderStartsWithPair(gs, LeftBehind(exprs, defaultTheme), order, a, b);
  }

  /** An execution order of two groups keyed `a` and `b`, ascending, starts `a`, `b`. */
  lemma OrderStartsWithPair(gs: seq<RelationGroup>, leftBehind: set<PluginRef>, order: seq<PluginRef>, a: PluginRef, b: PluginRef)
    requires IsExecutionOrder(gs, leftBehind, order) && Ascending(KeySeq(gs))
    requires Keys(gs) == {a, b} && RefLess(a, b)
    ensures |order| >= 2 && order[0] == a && order[1] == b
  {
    KeySeqIsKeys(gs);
    AscendingPair(KeySeq(gs), a, b);
    assert order[..|gs|] == [a, b];
  }

  /** What resolving one component gave: its execution order, or the conflict that stopped it. */
  datatype Outcome = Outcome(component: string, result: Result<seq<PluginRef>, Conflict>)

  /** `o` is the outcome step 3 gives for component `c`. */
  predicate Reports(c: Component, defaultTheme: string, o: Outcome)
  {
    var gs := OrderedGroups(c.exprs, defaultTheme);
    && o.component == c.name
    && (o.result.Err? <==> Conflicted(gs))
    && (o.result.Err? ==> FirstConflict(gs, o.result.error))
    && (o.result.Ok? ==> Resolves(c.exprs, defaultTheme, o.result.value) && NoDuplicates(o.result.value))
  }

  /** Steps 1 to 3 for one component: its execution order, or the first conflict. */
  method ResolveComponent(c: Component, defaultTheme: string) returns (r: Result<seq<PluginRef>, Conflict>)
    ensures Reports(c, defaultTheme, Outcome(c.name, r))
  {
    var gs := OrderedGroups(c.exprs, defaultTheme);
    var leftBehind := LeftBehind(c.exprs, defaultTheme);
    r := GenerateOrder(gs, leftBehind);
    if r.Ok? {
      ResolvedOrderIsValid(c.exprs, defaultTheme, r.value);
    }
  }

  /** `Reports` for a fixed default theme, as a relation between a component and an outcome. */
  function ReportsOn(defaultTheme: string): (Component, Outcome) -> bool
  {
    (c, o) => Reports(c, defaultTheme, o)
  }

  /** Each of the outcomes is related by `P` to the component at the same position. */
  predicate Pointwise(P: (Component, Outcome) -> bool, cs: seq<Component>, outcomes: seq<Outcome>)
  {
    && |outcomes| <= |cs|
    && forall k :: 0 <= k < |outcomes| ==> P(cs[k], outcomes[k])
  }

  lemma PointwiseExtends(P: (Component, Outcome) -> bool, cs: seq<Component>, outcomes: seq<Outcome>, o: Outcome)
    requires Pointwise(P, cs, outcomes) && |outcomes| < |cs| && P(cs[|outcomes|], o)
    ensures Pointwise(P, cs, outcomes + [o])
  {
    var longer := outcomes + [o];
    forall k | 0 <= k < |longer| ensures P(cs[k], longer[k]) {
      if k < |outcomes| {
        assert longer[k] == outcomes[k];
      }
    }
  }

  /**
   * Every component resolved on its own, in the order the components are
   * written; a conflict in one component does not affect the others.
   */
  method ResolveComponents(cs: seq<Component>, defaultTheme: string) returns (outcomes: seq<Outcome>)
    ensures |outcomes| == |cs| && Pointwise(ReportsOn(defaultTheme), cs, outcomes)
  {
    outcomes := [];
    var i := 0;
    while i < |cs|
      invariant 0 <= i <= |cs|
      invariant |outcomes| == i
      invariant Pointwise(ReportsOn(defaultTheme), cs, outcomes)
    {
      var one := ResolveComponent(cs[i], defaultTheme);
      PointwiseExtends(ReportsOn(defaultTheme), cs, outcomes, Outcome(cs[i].name, one));
      outcomes := outcomes + [Outcome(cs[i].name, one)];
      i := i + 1;
    }
  }

  /**
   * The outcome of every component of a relation text, in the order the
   * components are written, or the error that stops the text being read.
   */
  method ResolveText(text: string, defaultTheme: string) returns (r: Result<seq<Outcome>, ParseError>)
    ensures ParseText(text).Err? ==> r == Err(ParseText(text).error)
    ensures ParseText(text).Ok? ==>
              r.Ok? && |r.value| == |ParseText(text).value| && Pointwise(ReportsOn(defaultTheme), ParseText(text).value, r.value)
  {
    var parsed := ParseText(text);
    if parsed.Err? {
      return Err(parsed.error);
    }
    var outcomes := ResolveComponents(parsed.value, defaultTheme);
    r := Ok(outcomes);
  }
}
