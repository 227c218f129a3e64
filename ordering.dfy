/**
 * Step 3 of the algorithm: the execution order of one component, built
 * from its relation groups (in processing order) and from the plugins set
 * aside in step 1.1. Each group appends its key x to the order and moves
 * its successors into `left_behind`; a successor already in the order is
 * an error. What is left behind at the end follows, in no particular order.
 */
module Ordering {
  import opened Outcomes
  import opened Operands
  import opened Collation
  import opened Grouping

  /** The group of `x` met its successor `y` already in the order. */
  datatype Conflict = Conflict(x: PluginRef, y: PluginRef)

  /** The k-th successor of group i is the key of group i or of an earlier group. */
  predicate Clashes(gs: seq<RelationGroup>, i: nat, k: nat)
    requires i < |gs| && k < |gs[i].entries|
  {
    exists j :: 0 <= j <= i && gs[j].x == gs[i].entries[k].y
  }

  predicate Conflicted(gs: seq<RelationGroup>)
  {
    exists i, k :: 0 <= i < |gs| && 0 <= k < |gs[i].entries| && Clashes(gs, i, k)
  }

  /** `c` is the first clash met, groups taken in order and successors in entry order. */
  predicate FirstConflict(gs: seq<RelationGroup>, c: Conflict)
  {
    exists i, k ::
      && 0 <= i < |gs| && 0 <= k < |gs[i].entries| && Clashes(gs, i, k)
      && c == Conflict(gs[i].x, gs[i].entries[k].y)
      && (forall j, m :: 0 <= j < i && 0 <= m < |gs[j].entries| ==> !Clashes(gs, j, m))
      && (forall m :: 0 <= m < k ==> !Clashes(gs, i, m))
  }

  /** Every successor of every group. */
  function AllYs(gs: seq<RelationGroup>): set<PluginRef>
  {
    set g, e | g in gs && e in g.entries :: e.y
  }

  /**
   * The shape of a successful order: the group keys in processing order,
   * then, once each, the plugins left behind — those set aside in step 1.1
   * and the successors — that are not keys.
   */
  predicate IsExecutionOrder(gs: seq<RelationGroup>, leftBehind: set<PluginRef>, order: seq<PluginRef>)
  {
    && |gs| <= |order|
    && order[..|gs|] == KeySeq(gs)
    && NoDuplicates(order[|gs|..])
    && (set z | z in order[|gs|..]) == (leftBehind + AllYs(gs)) - Keys(gs)
  }

  /** `a` comes before `b` in `order`. */
  predicate Before(order: seq<PluginRef>, a: PluginRef, b: PluginRef)
  {
    exists i, j :: 0 <= i < j < |order| && order[i] == a && order[j] == b
  }

  lemma InKeySeq(gs: seq<RelationGroup>, n: nat, y: PluginRef)
    requires n <= |gs|
    ensures y in KeySeq(gs[..n]) <==> exists j :: 0 <= j < n && gs[j].x == y
    ensures y in KeySeq(gs[..n]) <==> y in Keys(gs[..n])
  {
    KeySeqIsKeys(gs[..n]);
    if exists j :: 0 <= j < n && gs[j].x == y {
      var j :| 0 <= j < n && gs[j].x == y;
      assert KeySeq(gs[..n])[j] == y;
    }
  }

  lemma KeysSnoc(gs: seq<RelationGroup>, i: nat)
    requires i < |gs|
    ensures Keys(gs[..i + 1]) == Keys(gs[..i]) + {gs[i].x}
    ensures KeySeq(gs[..i + 1]) == KeySeq(gs[..i]) + [gs[i].x]
  {
    assert gs[..i + 1] == gs[..i] + [gs[i]];
    KeysOfAppend(gs[..i], [gs[i]]);
  }

  lemma AllYsSnoc(gs: seq<RelationGroup>, i: nat)
    requires i < |gs|
    ensures AllYs(gs[..i + 1]) == AllYs(gs[..i]) + set m | 0 <= m < |gs[i].entries| :: gs[i].entries[m].y
  {
    var es := gs[i].entries;
    assert gs[..i + 1] == gs[..i] + [gs[i]];
    forall z | z in AllYs(gs[..i + 1]) ensures z in AllYs(gs[..i]) || z in set m | 0 <= m < |es| :: es[m].y {
      var g, e :| g in gs[..i + 1] && e in g.entries && e.y == z;
      if g !in gs[..i] {
        assert g == gs[i];
        var m :| 0 <= m < |es| && es[m] == e;
      }
    }
    forall m | 0 <= m < |es| ensures es[m].y in AllYs(gs[..i + 1]) {
      assert gs[i] in gs[..i + 1];
      assert es[m] in gs[i].entries;
    }
  }

  /** What a group leaves behind once its successors are added, none of them clashing. */
  lemma GroupDone(gs: seq<RelationGroup>, i: nat, leftBehind: set<PluginRef>, behind: set<PluginRef>)
    requires i < |gs|
    requires forall m :: 0 <= m < |gs[i].entries| ==> !Clashes(gs, i, m)
    requires behind == ((leftBehind + AllYs(gs[..i])) - Keys(gs[..i + 1]))
                       + set m | 0 <= m < |gs[i].entries| :: gs[i].entries[m].y
    ensures behind == (leftBehind + AllYs(gs[..i + 1])) - Keys(gs[..i + 1])
  {
    var es := gs[i].entries;
    AllYsSnoc(gs, i);
    forall m | 0 <= m < |es| ensures es[m].y !in Keys(gs[..i + 1]) {
      assert !Clashes(gs, i, m);
      InKeySeq(gs, i + 1, es[m].y);
    }
  }

  lemma FirstClash(gs: seq<RelationGroup>, i: nat, k: nat)
    requires i < |gs| && k < |gs[i].entries| && Clashes(gs, i, k)
    requires forall j, m :: 0 <= j < i && 0 <= m < |gs[j].entries| ==> !Clashes(gs, j, m)
    requires forall m :: 0 <= m < k ==> !Clashes(gs, i, m)
    ensures Conflicted(gs) && FirstConflict(gs, Conflict(gs[i].x, gs[i].entries[k].y))
  {
  }

  /** The plugins of a set, each once, in an order of the method's choosing. */
  method Flush(pending: set<PluginRef>) returns (rest: seq<PluginRef>)
    ensures NoDuplicates(rest)
    ensures (set z | z in rest) == pending
  {
    var behind := pending;
    rest := [];
    while behind != {}
      invariant NoDuplicates(rest)
      invariant (set z | z in rest) !! behind
      invariant (set z | z in rest) + behind == pending
      decreases |behind|
    {
      var z :| z in behind;
      rest := rest + [z];
      behind := behind - {z};
    }
  }

  /**
   * Step 3. Groups are processed in the given order, the successors of a
   * group in the order of its entries. The result is the first conflict, or
   * the execution order.
   */
  method GenerateOrder(gs: seq<RelationGroup>, leftBehind: set<PluginRef>) returns (r: Result<seq<PluginRef>, Conflict>)
    requires KeysDistinct(gs)
    ensures r.Err? <==> Conflicted(gs)
    ensures r.Err? ==> FirstConflict(gs, r.error)
    ensures r.Ok? ==> IsExecutionOrder(gs, leftBehind, r.value)
  {
    var order: seq<PluginRef> := [];
    var behind := leftBehind;
    var i := 0;
    while i < |gs|
      invariant 0 <= i <= |gs|
      invariant order == KeySeq(gs[..i])
      invariant behind == (leftBehind + AllYs(gs[..i])) - Keys(gs[..i])
      invariant forall j, m :: 0 <= j < i && 0 <= m < |gs[j].entries| ==> !Clashes(gs, j, m)
    {
      var x := gs[i].x;
      KeysSnoc(gs, i);
      behind := behind - {x};
      order := order + [x];
      var clash: Option<nat>;
      clash, behind := VisitSuccessors(gs, i, order, behind);
      if clash.Some? {
        FirstClash(gs, i, clash.value);
        return Err(Conflict(x, gs[i].entries[clash.value].y));
      }
      GroupDone(gs, i, leftBehind, behind);
      i := i + 1;
    }
    assert gs[..|gs|] == gs;
    var rest := Flush(behind);
    assert (order + rest)[..|gs|] == order && (order + rest)[|gs|..] == rest;
    r := Ok(order + rest);
  }

  /**
   * The inner loop of step 3 for group `i`, whose key has just been appended
   * to `order`: the first successor already in the order, or else every
   * successor added to the plugins set aside.
   */
  method VisitSuccessors(gs: seq<RelationGroup>, i: nat, order: seq<PluginRef>, pending: set<PluginRef>)
    returns (clash: Option<nat>, behind: set<PluginRef>)
    requires i < |gs| && order == KeySeq(gs[..i + 1])
    ensures clash.Some? ==> clash.value < |gs[i].entries| && Clashes(gs, i, clash.value)
                            && forall m :: 0 <= m < clash.value ==> !Clashes(gs, i, m)
    ensures clash.None? ==> (forall m :: 0 <= m < |gs[i].entries| ==> !Clashes(gs, i, m))
                            && behind == pending + set m | 0 <= m < |gs[i].entries| :: gs[i].entries[m].y
  {
    var es := gs[i].entries;
    behind := pending;
    var k := 0;
    while k < |es|
      invariant 0 <= k <= |es|
      invariant forall m :: 0 <= m < k ==> !Clashes(gs, i, m)
      invariant behind == pending + set m | 0 <= m < k :: es[m].y
    {
      var y := es[k].y;
      InKeySeq(gs, i + 1, y);
      if y in order {
        return Some(k), behind;
      }
      behind := behind + {y};
      k := k + 1;
      assert (set m | 0 <= m < k :: es[m].y) == (set m | 0 <= m < k - 1 :: es[m].y) + {y};
    }
    clash := None;
  }

  /** An execution order of groups with distinct keys lists every plugin once. */
  lemma ExecutionOrderNoDuplicates(gs: seq<RelationGroup>, leftBehind: set<PluginRef>, order: seq<PluginRef>)
    requires KeysDistinct(gs) && IsExecutionOrder(gs, leftBehind, order)
    ensures NoDuplicates(order)
  {
    var n := |gs|;
    var rest := order[n..];
    KeySeqIsKeys(gs);
    forall a, b | 0 <= a < b < |order| ensures order[a] != order[b] {
      if b >= n {
        assert order[b] == rest[b - n];
        assert order[b] in (set z | z in rest);
        if a >= n {
          assert order[a] == rest[a - n];
        } else {
          assert order[a] == order[..n][a] == KeySeq(gs)[a];
          assert order[a] in Keys(gs);
        }
      } else {
        assert order[a] == order[..n][a] && order[b] == order[..n][b];
      }
    }
  }

  /** An execution order holds exactly the keys, the successors and the plugins set aside. */
  lemma ExecutionOrderMembers(gs: seq<RelationGroup>, leftBehind: set<PluginRef>, order: seq<PluginRef>)
    requires IsExecutionOrder(gs, leftBehind, order)
    ensures forall z :: z in order <==> z in leftBehind || z in Keys(gs) || z in AllYs(gs)
  {
    var n := |gs|;
    var rest := order[n..];
    KeySeqIsKeys(gs);
    assert order == KeySeq(gs) + rest;
    forall z ensures z in order <==> z in leftBehind || z in Keys(gs) || z in AllYs(gs) {
      var later := set w | w in rest;
      assert z in order <==> z in KeySeq(gs) || z in rest;
      assert z in KeySeq(gs) <==> z in Keys(gs);
      assert z in rest <==> z in later;
      assert z in later <==> z in (leftBehind + AllYs(gs)) - Keys(gs);
    }
  }

  /** In an execution order of conflict-free groups every key comes before each of its successors. */
  lemma {:induction false} ExecutionOrderRespectsGroups(gs: seq<RelationGroup>, leftBehind: set<PluginRef>, order: seq<PluginRef>)
    requires !Conflicted(gs) && IsExecutionOrder(gs, leftBehind, order)
    ensures forall i, k :: 0 <= i < |gs| && 0 <= k < |gs[i].entries| ==> Before(order, gs[i].x, gs[i].entries[k].y)
  {
    var n := |gs|;
    var rest := order[n..];
    forall i, k | 0 <= i < n && 0 <= k < |gs[i].entries| ensures Before(order, gs[i].x, gs[i].entries[k].y) {
      var y := gs[i].entries[k].y;
      assert order[i] == order[..n][i] == gs[i].x;
      assert y in AllYs(gs) by {
        assert gs[i] in gs && gs[i].entries[k] in gs[i].entries;
      }
      assert gs[..n] == gs;
      InKeySeq(gs, n, y);
      if y in Keys(gs) {
        var j :| 0 <= j < n && gs[j].x == y;
        assert !Clashes(gs, i, k);
        assert order[j] == order[..n][j] == y;
      } else {
        assert y in (leftBehind + AllYs(gs)) - Keys(gs);
        assert y in (set z | z in rest);
        var m :| 0 <= m < |rest| && rest[m] == y;
        assert order[n + m] == y;
      }
    }
  }
}
