/**
 * Steps 2.2 and 2.3 of the algorithm: the relations of a group
 * `x <<p1 y1, ..., x <<pn yn` (sorted by priority) become the facts
 * `x < y1, y1 < y2, ..., y(n-1) < yn`, and the facts of all groups are
 * grouped again by their earlier plugin.
 */
module Chains {
  import opened Operands
  import opened Normalisation
  import opened Grouping

  /** `earlier < later`: `earlier` is executed before `later`. */
  datatype Fact = Fact(earlier: PluginRef, later: PluginRef)

  /** The facts of one group: x before its first successor, each successor before the next. */
  function Chain(x: PluginRef, ys: seq<PluginRef>): (fs: seq<Fact>)
    ensures |fs| == |ys|
    ensures forall i :: 0 <= i < |ys| ==> fs[i] == Fact(if i == 0 then x else ys[i - 1], ys[i])
    decreases |ys|
  {
    if ys == [] then []
    else
      var rest := Chain(ys[0], ys[1..]);
      [Fact(x, ys[0])] + rest
  }

  lemma YsHolds(es: seq<Entry>, e: Entry)
    requires e in es
    ensures e.y in Ys(es)
  {
    var k :| 0 <= k < |es| && es[k] == e;
    assert Ys(es)[k] == e.y;
  }

  /** Consecutive plugins of `path` are facts of `fs`. */
  predicate Linked(fs: seq<Fact>, path: seq<PluginRef>)
  {
    forall k :: 0 <= k < |path| - 1 ==> Fact(path[k], path[k + 1]) in fs
  }

  /** The chain of a group leads from x to each of its successors. */
  lemma ChainReaches(x: PluginRef, ys: seq<PluginRef>, i: nat)
    requires i < |ys|
    ensures Linked(Chain(x, ys), [x] + ys[..i + 1])
  {
    var path := [x] + ys[..i + 1];
    var fs := Chain(x, ys);
    forall k | 0 <= k < |path| - 1 ensures Fact(path[k], path[k + 1]) in fs {
      assert fs[k] == Fact(path[k], path[k + 1]);
    }
  }

  /** Step 2.2: the chains of all groups, group after group. */
  function ExpandAll(gs: seq<RelationGroup>): (fs: seq<Fact>)
    ensures forall f :: f in fs <==> exists i :: 0 <= i < |gs| && f in Chain(gs[i].x, Ys(gs[i].entries))
  {
    if gs == [] then []
    else
      var rest := ExpandAll(gs[1..]);
      assert forall i :: 0 < i < |gs| ==> gs[i] == gs[1..][i - 1];
      assert forall i :: 0 <= i < |gs| - 1 ==> gs[1..][i] == gs[i + 1];
      Chain(gs[0].x, Ys(gs[0].entries)) + rest
  }

  /** Facts as relations of priority 0, so that they can be grouped like relations. */
  function AsRelations(facts: seq<Fact>): (rels: seq<Relation>)
    ensures |rels| == |facts|
    ensures forall r :: r in rels <==> r.p == 0 && Fact(r.x, r.y) in facts
  {
    var rels := seq(|facts|, i requires 0 <= i < |facts| => Relation(facts[i].earlier, 0, facts[i].later));
    assert forall i :: 0 <= i < |facts| ==> rels[i] == Relation(facts[i].earlier, 0, facts[i].later);
    rels
  }

  lemma EarlierOperands(facts: seq<Fact>)
    ensures (set r | r in AsRelations(facts) :: r.x) == set f | f in facts :: f.earlier
  {
    var rels := AsRelations(facts);
    forall f | f in facts ensures f.earlier in set r | r in rels :: r.x {
      assert Relation(f.earlier, 0, f.later) in rels;
    }
  }

  /** Step 2.3: the facts grouped again by their earlier plugin. */
  function Regroup(facts: seq<Fact>): (gs: seq<RelationGroup>)
    ensures WellGrouped(gs)
    ensures Keys(gs) == set f | f in facts :: f.earlier
  {
    EarlierOperands(facts);
    GroupRelations(AsRelations(facts))
  }

  /** Every successor in a regrouped group is a derived fact. */
  lemma RegroupSound(facts: seq<Fact>, i: nat, k: nat)
    requires var gs := Regroup(facts); i < |gs| && k < |gs[i].entries|
    ensures var g := Regroup(facts)[i]; Fact(g.x, g.entries[k].y) in facts
  {
    var gs := Regroup(facts);
    var g := gs[i];
    var q := Relation(g.x, g.entries[k].p, g.entries[k].y);
    InFlatten(gs, q);
    assert q in multiset(Flatten(gs));
    assert q in (set r | r in AsRelations(facts));
  }

  /** Every derived fact is a successor in the group of its earlier plugin. */
  lemma RegroupComplete(facts: seq<Fact>, a: PluginRef, b: PluginRef)
    requires Fact(a, b) in facts
    ensures var gs := Regroup(facts);
      exists i :: 0 <= i < |gs| && gs[i].x == a && b in Ys(gs[i].entries)
  {
    var rels := AsRelations(facts);
    var gs := Regroup(facts);
    var r := Relation(a, 0, b);
    assert r in multiset(Flatten(gs)) by {
      assert r in rels;
      assert multiset(Flatten(gs)) == multiset(set q | q in rels);
    }
    InFlatten(gs, r);
    var i :| 0 <= i < |gs| && gs[i].x == a && Entry(0, b) in gs[i].entries;
    YsHolds(gs[i].entries, Entry(0, b));
  }

  /** A fact is in the regrouped groups exactly when it was derived: `a < b` iff b succeeds a in a's group. */
  lemma {:induction false} RegroupHoldsFacts(facts: seq<Fact>, a: PluginRef, b: PluginRef)
    ensures var gs := Regroup(facts);
      Fact(a, b) in facts <==> exists i :: 0 <= i < |gs| && gs[i].x == a && b in Ys(gs[i].entries)
  {
    var gs := Regroup(facts);
    if exists i :: 0 <= i < |gs| && gs[i].x == a && b in Ys(gs[i].entries) {
      var i :| 0 <= i < |gs| && gs[i].x == a && b in Ys(gs[i].entries);
      var k :| 0 <= k < |gs[i].entries| && Ys(gs[i].entries)[k] == b;
      RegroupSound(facts, i, k);
    }
    if Fact(a, b) in facts {
      RegroupComplete(facts, a, b);
    }
  }
}
